# SpelNodeImpl in Dafny

A model of `SpelNodeImpl`, the base class of every node in a parsed Spring
Expression Language (SpEL) expression tree, from Spring Framework 5.2.
The model covers four parts of the class:

- **Packed source position.** One Java `int` holds the node's start offset in its top 16 bits and its end offset in its bottom 16 bits. `getStartPosition` is `pos >> 16` and `getEndPosition` is `pos & 0xffff`. Module `Words` defines 32-bit two's-complement words with Java's `&` and arithmetic `>>` bit by bit. Module `Position` proves that these bit operations equal floor division and the non-negative remainder by 2^16. It also proves the pack/unpack round trips.
- **Tree wiring.** Class `Ast.SpelNodeImpl` has a `children` array, a nullable `parent`, the packed `pos`, and a constant `kind` (its `getClass()`). The constructor takes the operand array itself as `children`, so the two alias. It then points every operand's `parent` at the new node.
- **Sibling look-ups.** `GetPreviousChild` and `NextChildIs` keep the source's loops. Each is proved against a function over the parent's child sequence (`PreviousOf`, `NextIs`), defined by the first identity match (`FirstIndex`). Lemmas then say what those functions give for a child in its parent's array, for a child missing from it, and for a parent whose children point back to it and occur once each.
- **Value rules.** These are the untyped `getValue` with its fallback to a fresh default state, the typed `getValue` with its short cut for assignable results, the default `isWritable`/`setValue`, and `getObjectClass`. A node's own evaluation (`getValueInternal`), the assignability test and the type converter are function parameters. The expression state is a type parameter.

Files: `wrappers.dfy` (Option/Result/Outcome), `words.dfy`, `position.dfy`,
`values.dfy` (classes, references, exceptions), `ast.dfy`, `evaluation.dfy`.

## Model

| member | source | states |
|---|---|---|
| `Words.ShiftRight16` | org.springframework.expression/src/main/java/org/springframework/expression/spel/ast/SpelNodeImpl.java:154-156 | The bit-level arithmetic shift `x >> 16` of a 32-bit word (the sign bit is copied into the vacated bits) has the value floor(x / 2^16). |
| `Words.MaskLow16` | org.springframework.expression/src/main/java/org/springframework/expression/spel/ast/SpelNodeImpl.java:158-160 | The bit-level `x & 0xffff` of a 32-bit word has the value x mod 2^16, which is never negative, also for negative x. |
| `Position.StartOf` | org.springframework.expression/src/main/java/org/springframework/expression/spel/ast/SpelNodeImpl.java:154-156 | The start is the floor of pos / 2^16. It lies in -32768..32767 and satisfies start·2^16 <= pos < (start+1)·2^16. |
| `Position.EndOf` | org.springframework.expression/src/main/java/org/springframework/expression/spel/ast/SpelNodeImpl.java:158-160 | The end always lies in 0..65535 and differs from pos by a multiple of 2^16. |
| `Position.StartIsShift` | org.springframework.expression/src/main/java/org/springframework/expression/spel/ast/SpelNodeImpl.java:154-156 | The arithmetic start agrees with Java's `pos >> 16` on the two's-complement word, for every int. |
| `Position.EndIsMask` | org.springframework.expression/src/main/java/org/springframework/expression/spel/ast/SpelNodeImpl.java:158-160 | The arithmetic end agrees with Java's `pos & 0xffff` on the two's-complement word, for every int. |
| `Position.Recompose` | org.springframework.expression/src/main/java/org/springframework/expression/spel/ast/SpelNodeImpl.java:51 | No bit is lost: pos = start·2^16 + end for every int. |
| `Position.Injective` | org.springframework.expression/src/main/java/org/springframework/expression/spel/ast/SpelNodeImpl.java:51 | Two positions with equal start and equal end are equal. |
| `Position.UnpackPack` | org.springframework.expression/src/main/java/org/springframework/expression/spel/ast/SpelNodeImpl.java:51 | Packing start·2^16 + end with start in 0..32767 and end in 0..65535 unpacks to the same start and end. |
| `Position.PackUnpack` | org.springframework.expression/src/main/java/org/springframework/expression/spel/ast/SpelNodeImpl.java:51 | Every non-negative position is the packed form of its own start and end. |
| `Position.UnpackPackWrapped` | org.springframework.expression/src/main/java/org/springframework/expression/spel/ast/SpelNodeImpl.java:51 | A 16-bit start written into the top half-word reads back unchanged below 32768. From 32768 up it reads back as start - 65536, because `>>` is signed. The end always reads back unchanged. |
| `Position.TokenSpanNonZero` | org.springframework.expression/src/main/java/org/springframework/expression/spel/ast/SpelNodeImpl.java:57-58 | A token of non-zero length (start < end) packs to a non-zero position. So the constructor's demand `pos != 0` holds for real tokens. |
| `Position.StartMayFollowEnd` | org.springframework.expression/src/main/java/org/springframework/expression/spel/ast/SpelNodeImpl.java:51-58 | Start <= end is not enforced: the non-zero position packed from start 5 and end 3 is accepted. |
| `JavaValues.GetObjectClass` | org.springframework.expression/src/main/java/org/springframework/expression/spel/ast/SpelNodeImpl.java:129-134 | Null gives null, and only null does. A `Class` object gives the class it stands for. Any other value gives its runtime class. |
| `JavaValues.ClassRefClassifiedAsDenoted` | org.springframework.expression/src/main/java/org/springframework/expression/spel/ast/SpelNodeImpl.java:129-134 | A type reference and an instance of that type get the same object class, although `getClass()` tells them apart. |
| `JavaValues.ClassifiedAsClassOnlyForItself` | org.springframework.expression/src/main/java/org/springframework/expression/spel/ast/SpelNodeImpl.java:129-134 | A value is classified as `java.lang.Class` exactly when it is the `Class` object of `java.lang.Class` itself. |
| `Ast.SpelNodeImpl.constructor` | org.springframework.expression/src/main/java/org/springframework/expression/spel/ast/SpelNodeImpl.java:55-65 | Requires pos != 0. Stores pos and the class, and leaves `parent` null. With non-null, non-empty operands, `children` is that very array. Otherwise `children` is a fresh empty array. The child count is the operand count, and every operand's `parent` is the new node. Only the operands' `parent` fields may change: their own children and positions stay as they were. |
| `Ast.SpelNodeImpl.GetChildCount` | org.springframework.expression/src/main/java/org/springframework/expression/spel/ast/SpelNodeImpl.java:125-127 | The number of children is the length of the children array. |
| `Ast.SpelNodeImpl.GetChild` | org.springframework.expression/src/main/java/org/springframework/expression/spel/ast/SpelNodeImpl.java:121-123 | Succeeds exactly for 0 <= index < count and then returns that child. Otherwise it fails with an index-out-of-bounds error naming the index. |
| `Ast.SpelNodeImpl.StartPosition` | org.springframework.expression/src/main/java/org/springframework/expression/spel/ast/SpelNodeImpl.java:154-156 | The node's start is `Position.StartOf(pos)`, in -32768..32767. |
| `Ast.SpelNodeImpl.EndPosition` | org.springframework.expression/src/main/java/org/springframework/expression/spel/ast/SpelNodeImpl.java:158-160 | The node's end is `Position.EndOf(pos)`, in 0..65535. |
| `Ast.SpelNodeImpl.IsWritable` | org.springframework.expression/src/main/java/org/springframework/expression/spel/ast/SpelNodeImpl.java:112-115 | By default a node is never writable, whatever the state. |
| `Ast.SpelNodeImpl.SetValue` | org.springframework.expression/src/main/java/org/springframework/expression/spel/ast/SpelNodeImpl.java:117-119 | Always fails with SETVALUE_NOT_SUPPORTED, carrying the node's start position and its class as the only insert. It changes nothing, since it is a function. |
| `Ast.SpelNodeImpl.GetPreviousChild` | org.springframework.expression/src/main/java/org/springframework/expression/spel/ast/SpelNodeImpl.java:67-76 | Null without a parent. Otherwise the element before the first identity match of this node in the parent's children. That is null when it comes first, and the last child when it is absent. |
| `Ast.SpelNodeImpl.NextChildIs` | org.springframework.expression/src/main/java/org/springframework/expression/spel/ast/SpelNodeImpl.java:78-101 | False without a parent. Otherwise true exactly when the element after the first identity match exists and its class equals one of the given classes. Equality is exact, not a subtype test. |
| `Ast.PreviousOfAt` | org.springframework.expression/src/main/java/org/springframework/expression/spel/ast/SpelNodeImpl.java:67-76 | At a node's first occurrence at index i, the previous sibling is element i-1, or null when i = 0. |
| `Ast.PreviousOfAbsent` | org.springframework.expression/src/main/java/org/springframework/expression/spel/ast/SpelNodeImpl.java:67-76 | A node missing from its parent's children gets the last child (null if there are none), because the scan never breaks. |
| `Ast.NextIsAt` | org.springframework.expression/src/main/java/org/springframework/expression/spel/ast/SpelNodeImpl.java:81-101 | At a node's first occurrence at index i, the result is true iff i+1 is in range and element i+1's class is one of the given classes. |
| `Ast.NextIsAbsent` | org.springframework.expression/src/main/java/org/springframework/expression/spel/ast/SpelNodeImpl.java:81-101 | A node missing from its parent's children is never followed by a match. |
| `Ast.SiblingsOfWiredChild` | org.springframework.expression/src/main/java/org/springframework/expression/spel/ast/SpelNodeImpl.java:55-101 | Take a node whose children all point back to it and occur once each. Its i-th child's parent is the node, the child's previous sibling is child i-1 (none for i = 0), and `nextChildIs` tests child i+1 (false for the last). |
| `Ast.ChildPointsBack` | org.springframework.expression/src/main/java/org/springframework/expression/spel/ast/SpelNodeImpl.java:59-127 | When every child points back, each index below the child count yields a child whose parent is the node. |
| `Ast.BinaryNodeSiblings` | org.springframework.expression/src/main/java/org/springframework/expression/spel/ast/SpelNodeImpl.java:55-101 | For a two-operand node built bottom-up, the left operand has no previous sibling and is followed by a leaf. The right operand's previous sibling is the left operand, and nothing follows it. |
| `Ast.NestedBuildKeepsWiring` | org.springframework.expression/src/main/java/org/springframework/expression/spel/ast/SpelNodeImpl.java:55-101 | Building `a + b * c` bottom-up leaves the inner node `b * c` wired: every child of it still points back, `c`'s previous sibling is `b`, `b` is followed by a leaf, and the inner node's previous sibling is `a`. |
| `Evaluation.GetValue` | org.springframework.expression/src/main/java/org/springframework/expression/spel/ast/SpelNodeImpl.java:103-110 | Returns the value part of the node's own evaluation, or its exception. It uses the given state, or a fresh default state when none is given. |
| `Evaluation.MissingStateUsesDefault` | org.springframework.expression/src/main/java/org/springframework/expression/spel/ast/SpelNodeImpl.java:103-110 | A missing state gives the same result as the fresh default state. The absence itself never fails. |
| `Evaluation.GetTypedValue` | org.springframework.expression/src/main/java/org/springframework/expression/spel/ast/SpelNodeImpl.java:137-148 | A failure of evaluation propagates. A null result, no desired type, or a result assignable to the desired type comes back unchanged. Only otherwise is the converter's result, success or failure, returned. |
| `Evaluation.ConverterUnusedUnlessNeeded` | org.springframework.expression/src/main/java/org/springframework/expression/spel/ast/SpelNodeImpl.java:139-145 | When no conversion is needed, any two converters give the same answer, so the converter is not consulted. |
| `Evaluation.ResultHasDesiredType` | org.springframework.expression/src/main/java/org/springframework/expression/spel/ast/SpelNodeImpl.java:137-148 | If the converter only yields values of the type asked for, every non-null result is assignable to the desired type. This makes the unchecked cast `(T) result` sound. |
| `Evaluation.NullOnlyFromEvaluationOrConverter` | org.springframework.expression/src/main/java/org/springframework/expression/spel/ast/SpelNodeImpl.java:137-148 | A null result means evaluation yielded null or the converter returned null. It is never produced by the method itself. |

## Left out

- The `TypeDescriptor` constants (lines 37-47): library calls with no logic of their own.
- `getValueInternal` and `toStringAST` are abstract. A node's evaluation is a function parameter of `Evaluation`, and `toStringAST` is not modelled.
- `ExpressionUtils.convert`, `Class.isAssignableFrom`, `ExpressionState` and `StandardEvaluationContext` are defined elsewhere. They are parameters: the converter and the assignability test are functions, and the state is a type parameter. A fresh default state is a value supplied by the caller.
- Java assertions: `assert pos != 0` is a constructor precondition here. With assertions disabled at run time, Java stores a zero position without complaint.
- `Ast.SpelNodeImpl.constructor`: operand arrays containing null are not modelled. Java would throw a NullPointerException in the wiring loop after setting some parents.
- `Ast.SpelNodeImpl.constructor`: nodes built without operands share one static empty array in Java. The model gives each such node a fresh empty array, which differs only in array identity.
- `Ast.SpelNodeImpl.NextChildIs`: null entries among the given classes are not modelled. Java compares them as unequal, so leaving them out of the sequence changes nothing. A parent whose children array holds null is not modelled either.
- `Evaluation.GetTypedValue`: a null expression state is not modelled. Its behaviour depends on the unseen `getValueInternal`.
- Subclass overrides of `isWritable`, `setValue` and `getValueInternal` are not modelled. Only the base-class defaults are.
- Start <= end and an immutable tree are not properties of this class. Nothing checks the order of the two offsets (`Position.StartMayFollowEnd`). A node can lose track of its children in two ways: code that still holds the operand array overwrites an element, since `children` aliases that array, or a subclass reassigns the non-final protected `children` field. A looked-up node is then missing from its parent's children, and `Ast.PreviousOfAbsent` and `Ast.NextIsAbsent` state what the look-ups return. Building a second node from an operand that is already wired re-points that operand's `parent`. The operand is found among its new parent's children, but the first node no longer satisfies `ParentOfAll`.
- The packing of positions happens in the parser, which is not part of this model. `Position.Pack` and `Position.PackWrapped` are its reading of the comment at line 51.
