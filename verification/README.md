# Contiki 2.7 protocol and database core

A Dafny model of the parts of Contiki 2.7 that carry the most logic, with proofs of what they
guarantee. `dafny verify dfyconfig.toml` checks the whole project.

## What is modelled

**Antelope, the database for sensor nodes** (`apps/antelope`). Conditions are compiled from infix to
prefix bytecode in place, by reserving, shifting and overwriting bytes, and the code is executed by a
small virtual machine that can also derive value ranges of variables from it. A selection searches an
index for such a range instead of scanning, and selection and join are step machines that are called
again for every row.
- `LvmCode`, `LvmMeaning`, `Lvm`: bytecode, its meaning, the machine.
- `AqlSyntax`, `AqlRun`, `AqlParser`, `AqlTrees`, `AqlSaid`, `AqlMeaning`, `AqlTokens`: syntax, runs of the parser,
  the parser, what conditions say, and that compiled ones mean it.
- `Derivation`, `InlineIndex`, `Select`, `AqlQuery`, `Join`: ranges, binary search, selection, whole queries, join.
- `HeapTree`, `MaxHeap`, `MaxHeapSearch`, `MaxHeapLookup`: the max-heap index, a binary tree of hash
  ranges whose nodes have buckets that are only appended to.
- `StorageRows`, `Relation`: rows in a file.

**CoAP draft 12** (`apps/er-coap-12`).
- `CoapOption`, `CoapStream`, `CoapText`, `CoapPacket`, `CoapSerialize`, `CoapSend`: the option format
  of section 3 of draft-ietf-core-coap-12 with jumps, long lengths and split strings, and the serializer.
- `CoapReceive`, `CoapRoundTrip`, `CoapParse`, `CoapExchange`, `CoapWire`: what a message means, the parser that
  merges strings in its buffer, both together, and the options by their numbers and bytes.
- `WellKnownCore`: the listing of resources in blocks (section 2.2 of RFC 7959) and the client loop.
- `Transactions`: retransmission (sections 4.2 and 4.8.2 of RFC 7252, whose constants draft 12 has).

**codeprop** (`apps/codeprop`): `Codeprop`, an image sent over a lossy broadcast with NACKs.

**tunslip** (`tools/tunslip.c`): `InternetChecksum` (section 2 of RFC 1071, section 3 of RFC 1624),
`IpPacket`, `Slip` (RFC 1055), `Tunslip`.

`Arithmetic` and `Bytes` hold a few lemmas that several modules need.

## How

Code that changes state is a class or a method over arrays with the branches, constants and error
results of the original. Its contract ties it to a function on values; the lemmas are about those
functions. Methods of the parser and the machine take the syntax or the tree as a ghost parameter: they
work on any tokens and bytes, and the last clauses say what they do when that syntax is what they meet.

Widths are explicit: 16-bit words, 32-bit `long` with wrap-around, an `int` of 16 or 32 bits, unsigned tuple
numbers that wrap below zero; index bounds are cut to an `int` of 16 or 32 bits. Where the code writes
past its buffer the machine sets `overrun`; where it reads outside what it may, the result is `Outside`,
`Undefined` or `UNDEFINED`.

## What the code does differently from what it is for

The model follows the code. Each of these is a lemma with the exact condition or a general example.
- An expression with two operators on one nesting level is not compiled to the code of a reading of it
  (`AqlTrees.EncodesAReading`, `EncodesATree`); a comparison with one takes an operator from the other
  side (`ChainTakesTheOtherSide`).
- Parentheses: behind n opening ones that are not its own, an expression is accepted only with 2n closing
  ones (`AqlParser.Parser.ParseExpr`), so `(a) + b` is refused and `(a)) + b` accepted; a condition
  in parentheses is refused at the beginning (`ParseWhere`). Behind a connective, `(b = 2)` is refused and
  `(b = 2))` accepted (`ParseGroup`), and compiled like `b = 2`. A condition with connectives in
  parentheses is never compiled as it is meant (`AqlMeaning.CompiledAsMeant`): `a k (b l c))` gets the code
  of `(a k b) l c` (`EnclosedConnective`, `EnclosedValue`), and a connective behind it splits an operand
  (`ConnectiveInAnOperand`).
- A comparison that fails behind a connective ends the parser with 0, which is no error. In parentheses,
  when a closing one follows the token in place of its operator, the condition goes on behind it
  (`AqlParser.Parser.ParseBehind`, `ParseGroup`).
- Ranges are unsound with the literal on the left (`Derivation.LiteralFirst`), with two literals
  (`TwoLiterals`, `LiteralsBesideAVariable`), and for ORs that bound a variable on one side only
  (`UnionIsSound`, `UnevenOr`); two extreme comparisons wrap around (`RangeIsExact`).
- The index with the last derived range is chosen, not the one with the smallest
  (`Select.NarrowerRangeLosesOut`); removals that go through an index lose rows unless the search yields
  all rows (`Select.RemovalThroughIndexLosesRows`); with a 16-bit `int` one-sided conditions are searched
  for the wrong range (`Select.OpenAbove`, `OpenAboveLosesRows`, `OpenBelow`, `OpenBelowLosesRows`).
- A column with equal values loses rows of the range (`InlineIndex.EqualValuesAreLost`, `BoundsLoseRows`),
  unless only values between the bounds are equal (`BoundsThatOccurOnce`).
- The binary search leaves the relation for targets below its first value, and an absent exact value is
  reported as an index error (`InlineIndex.SpanLeaves`, `Select.SelectByIndex`).
- The bucket cache of the max-heap is not updated by an append (`MaxHeapSearch.AppendKeepsCoherent`), a
  search does not begin anew in each bucket (`MaxHeapLookup.FindsEveryMatch`, `OneKeyTooOften`), and the
  nodes of the last level never get pairs: the first insertion that fails has still split its node
  (`MaxHeap.Heap.InsertItem`).
- The CoAP parser leaves the terminator that follows 15 and more options in front of the payload
  (`CoapRoundTrip.RoundTrip`, `ManySegments`), and reads long differences of option numbers
  otherwise than they are written (`CoapStream.ProxyUriIsRead`).
- The resource listing ends with one block too many when a full block ends with attributes
  (`WellKnownCore.BlockingRequest`).
- A message is given up right with its fifth send, a pass over the timers ends at a message that is
  given up, and callbacks belong to slots (`Transactions.StaleCallback`).
- A codeprop receiver takes a first packet for any address as the one for address 0, since its NACK
  overwrites the address (`Codeprop.SecondHalfTwice`, `WrongLaunch`, `WrongLaunchOfSource`).
- On hosts of little byte order, a packet whose header is stated to be two words long fails its second
  check in tunslip (`Tunslip.SecondCheckPasses`, `ShortHeaderFails`).

## Model

| member | source | states |
|---|---|---|
| `Lvm.Machine.JumpToOperand` | contiki-2.7/apps/antelope/lvm.c:314-327 | Reserves the four bytes of an operator if they leave room in the buffer, and otherwise leaves the end where it was; returns the old end. |
| `Lvm.Machine.ShiftForOperator` | contiki-2.7/apps/antelope/lvm.c:329-348 | Opens a four-byte gap: the code behind it is preserved four bytes further on and the code before it is untouched; a position at or behind the end, or a buffer without room for the operator code, is refused with nothing changed. The guard counts two bytes of the four that are moved, so the bytes are described only where four fit. |
| `Lvm.Machine.SetEnd` | contiki-2.7/apps/antelope/lvm.c:356-370 | Moves the end within the buffer only, and returns where it was. |
| `Lvm.Machine.SetOp` | contiki-2.7/apps/antelope/lvm.c:406-412 | Overwrites the code at its end with the encoding of an arithmetic operator and nothing else. |
| `Lvm.Machine.SetRelation` | contiki-2.7/apps/antelope/lvm.c:414-420 | The same for a comparison operator or a connective. |
| `Lvm.Machine.SetOperand` | contiki-2.7/apps/antelope/lvm.c:422-428 | The same for an operand, its kind and its 32-bit value. |
| `Lvm.Machine.Lookup` | contiki-2.7/apps/antelope/lvm.c:105-117 | The loop finds the first slot with the name, or the number of registered variables. |
| `Lvm.Machine.RegisterVariable` | contiki-2.7/apps/antelope/lvm.c:441-460 | The table grows by a name that is not in it, in order, as long as there is a free slot; the status tells a name that is in the table afterwards from one that the full table refused. |
| `Lvm.Machine.SetVariableValue` | contiki-2.7/apps/antelope/lvm.c:462-473 | Changes exactly the value of the named variable, or none and reports an invalid identifier. |
| `Lvm.Machine.SetVariable` | contiki-2.7/apps/antelope/lvm.c:475-488 | Emits the number of the slot that the name has, or no byte at all for a name that the full table could not take. |
| `LvmCode.Dec32Enc32` | contiki-2.7/apps/antelope/lvm.c:129-134 | Reading an operand value back gives what was written, for every 32-bit value including the negative ones. |
| `LvmCode.PrefixFree` | contiki-2.7/apps/antelope/lvm.c:165-219 | No encoded expression is a proper prefix of another: bytes that begin with one encoded tree begin with no other. |
| `Lvm.Machine.EvalOperand` | contiki-2.7/apps/antelope/lvm.c:165-219 | On the encoding of any expression tree, also one that no parser emits, returns its value or its first error, and has advanced over exactly its bytes. |
| `Lvm.Machine.EvalExpr` | contiki-2.7/apps/antelope/lvm.c:165-219 | The same for the two operands of an operator, evaluated from left to right; the first error ends the evaluation. |
| `LvmMeaning.TruncDivTruncates` | contiki-2.7/apps/antelope/lvm.c:204-209 | Division leaves a rest smaller than the divisor and with the sign of the dividend. |
| `Lvm.Machine.Operate` | contiki-2.7/apps/antelope/lvm.c:165-219 | Sums, differences and products are those of the numbers modulo 2^32, and so is the quotient, truncated toward zero; division by zero is a math error, and unknown operators are execution errors. |
| `Lvm.Machine.EvalComparison` | contiki-2.7/apps/antelope/lvm.c:221-298 | A comparison of two expressions yields its truth value, or the first error of the sides. |
| `Lvm.Machine.EvalConnective` | contiki-2.7/apps/antelope/lvm.c:221-298 | AND holds where both arguments do, OR where one does and NOT where its argument does not; all arguments are evaluated, without short cut, and the first error is passed on. |
| `Lvm.Machine.EvalLogic` | contiki-2.7/apps/antelope/lvm.c:221-298 | The value of any condition tree whose encoding stands at the moving instruction position, which ends behind it. |
| `Lvm.Machine.Execute` | contiki-2.7/apps/antelope/lvm.c:379-404 | For every tree whose encoding the buffer begins with: the status is the meaning of the tree, and unless that is an error exactly its bytes have been read. A program that begins otherwise is an execution error. |
| `AqlParser.Parser.ParseOperand` | contiki-2.7/apps/antelope/aql-parser.c:267-288 | Appends a name or a number to the code and registers the name; strings and floats are passed over without emitting anything; every other token, an opening parenthesis among them, is consumed and refused. In these cases the code is unchanged. |
| `AqlParser.Parser.InsertOperator` | contiki-2.7/apps/antelope/aql-parser.c:325-344 | Reserving by shifting, overwriting and going back to the end is an insertion of the operator into the code, when there is room. |
| `AqlParser.Parser.ParseArg` | contiki-2.7/apps/antelope/aql-parser.c:321-323 | Compiles a right operand, plain or in parentheses, behind the code there is, and reads exactly its tokens. |
| `AqlParser.Parser.ParseFirst` | contiki-2.7/apps/antelope/aql-parser.c:298-309 | Compiles a first operand, plain or in parentheses with two closing ones, and reads exactly its tokens. An expression behind n more opening parentheses is accepted if and only if at least 2n closing ones follow it, 2n of which are read, whatever comes behind those; then the code is that of the expression alone. |
| `AqlParser.Parser.ParseParenthesised` | contiki-2.7/apps/antelope/aql-parser.c:298-303 | The same behind the first opening parenthesis: the expression reads a closing one of its own, and the next is demanded. |
| `AqlParser.Parser.ParseOperators` | contiki-2.7/apps/antelope/aql-parser.c:311-347 | The loop over any number of operators leaves the stated bytes: the first operator stands before the expression, every later one only before its own right operand. |
| `AqlParser.Parser.ParseExpr` | contiki-2.7/apps/antelope/aql-parser.c:290-348 | The code grows by the bytes of the expression, whose left operand may be in parentheses (`(a)) + b`), its variables are registered in order, and exactly its tokens are read, with one closing parenthesis if it follows. Behind n more opening parentheses, it succeeds if and only if at least 2n closing ones follow. |
| `AqlParser.Parser.ParseCmp` | contiki-2.7/apps/antelope/aql-parser.c:356-393 | The operator that follows the left side is written into the gap before it (which code that is follows from `AqlMeaning.WhereMeans`); without one it is a syntax error, and the code ends before the gap again. |
| `AqlParser.Parser.ParseLeft` | contiki-2.7/apps/antelope/aql-parser.c:356-393 | The gap that is reserved for the comparison operator before the left side is compiled holds that operator afterwards. A left side that no comparison operator follows, or that stands behind more opening parentheses than its closing ones allow, is a syntax error. |
| `AqlParser.Parser.ParseComparison` | contiki-2.7/apps/antelope/aql-parser.c:350-400 | The code grows by the prefix form of the comparison: operator, left side, right side. One without operator leaves the code as it was, with the variables of its expression registered and the token in place of the operator read. |
| `AqlParser.Parser.ParseChain` | contiki-2.7/apps/antelope/aql-parser.c:412-446 | The loop over the connectives, with conditions in parentheses to any depth: the first connective is inserted before all of the code, every later one where the code ended when the one before had been inserted. The chain ends with the status that its last part determines. |
| `AqlParser.Parser.ParseBehind` | contiki-2.7/apps/antelope/aql-parser.c:428-441 | What fails behind a connective is reported as a syntax error only in parentheses; elsewhere the parser returns 0, which counts as no error. For every kind of item, in parentheses or not, complete or not: its status, its bytes, its variables and its end. |
| `AqlParser.Parser.ParseGroup` | contiki-2.7/apps/antelope/aql-parser.c:428-434 | A condition in parentheses is accepted if and only if a closing one follows what the parser reads of it, and that includes a closing one behind its last comparison: `(b = 2)` is refused and `(b = 2))` is accepted. |
| `AqlParser.Parser.ParseWhere` | contiki-2.7/apps/antelope/aql-parser.c:402-447 | For every condition, with arbitrary expressions, conditions in parentheses to any depth, and failures behind a connective, every code there is already, every variable table and every buffer it fits, to the last byte when it ends with an operand: the status and, unless that is a syntax error, the exact bytes, the variables registered and the tokens read. A first comparison that fails is a syntax error. |
| `AqlRun.WhereWritten` | contiki-2.7/apps/antelope/aql-parser.c:402-447 | Tokens of a condition, with two closing parentheses for every condition in parentheses that ends with a comparison and one for every other, are read as that condition. |
| `AqlTrees.SingleEncodes` | contiki-2.7/apps/antelope/aql-parser.c:290-348 | With at most one operator on every nesting level, the emitted bytes are the prefix encoding of the tree that the expression stands for, left operands in parentheses included. |
| `AqlTrees.BeginsWithATree` | contiki-2.7/apps/antelope/aql-parser.c:311-345 | The code of every expression begins with the encoding of a tree, which ends before the emitted bytes do unless the expression is tree-like. |
| `AqlTrees.EncodesATree` | contiki-2.7/apps/antelope/aql-parser.c:290-348 | The emitted bytes are the encoding of some tree, any tree, if and only if the expression is tree-like: at most one operator on its own level, and the same for its last operand. |
| `AqlTrees.TreeLikeIsSingle` | contiki-2.7/apps/antelope/aql-parser.c:311-345 | For expressions without parentheses before an operator that means: at most one operator on every level. |
| `AqlTrees.ReadingIsSingle` | contiki-2.7/apps/antelope/aql-parser.c:290-348 | A tree that keeps to the parentheses of an expression, however the operators on its levels are grouped, is what the code encodes only if no level has two operators. |
| `AqlTrees.EncodesAReading` | contiki-2.7/apps/antelope/aql-parser.c:350-400 | The code of a comparison is the encoding of one of its readings, however operators are grouped, if and only if no level of either side has two operators. |
| `AqlTrees.ChainTakesTheOtherSide` | contiki-2.7/apps/antelope/aql-parser.c:311-345 | `a o1 b o2 c ~ d` is compiled to the code of `a o1 b ~ c o2 d`, for all operands and operators. |
| `AqlMeaning.BuiltEncodes` | contiki-2.7/apps/antelope/aql-parser.c:402-447 | A condition with one operator on each level, whose parentheses hold connectives only at the end, is compiled to the encoding of the tree that is built: comparisons nest to the right, and the first connective in parentheses takes all that stands before it as its left side. |
| `AqlMeaning.FlatIsMeant` | contiki-2.7/apps/antelope/aql-parser.c:402-447 | Without connectives in parentheses the tree that is built is the one that is meant, nested to the right whatever the connectives. |
| `AqlMeaning.CompiledAsMeant` | contiki-2.7/apps/antelope/aql-parser.c:402-447 | A condition with one operator on each level is compiled to the encoding of the tree that is meant if and only if no condition in parentheses has connectives. |
| `AqlMeaning.EnclosedConnective` | contiki-2.7/apps/antelope/aql-parser.c:402-447 | `a k (b l c ...)` is compiled like `(a k b) l c ...`. |
| `AqlMeaning.EnclosedValue` | contiki-2.7/apps/antelope/aql-parser.c:402-447 | So its run returns the value of what is meant if and only if k and l are equal, something fails, or the values of a and of what follows l do not tell the two apart: the first is true or the second is not for AND before the parentheses, the first is not or the second is true for OR. |
| `AqlMeaning.ConnectiveInAnOperand` | contiki-2.7/apps/antelope/aql-parser.c:412-446 | A connective behind a condition in parentheses that has a connective is inserted into the last operand before the parentheses: the bytes that `a k (b l c) m d` is compiled to. |
| `AqlMeaning.WhereEncodesAReading` | contiki-2.7/apps/antelope/aql-parser.c:402-447 | Without connectives in parentheses, the code of a condition is the encoding of one of its readings, however the operators in its comparisons are grouped, if and only if no level of any side has two operators. |
| `AqlMeaning.WhereClosed` | contiki-2.7/apps/antelope/aql-parser.c:267-288 | Every variable of a compiled condition has one of the slots of the machine. |
| `AqlMeaning.Compile` | contiki-2.7/apps/antelope/aql-parser.c:402-447 | From tokens to code: a new machine holds exactly the encoding of the tree that is built. |
| `AqlMeaning.CompileAndRun` | contiki-2.7/apps/antelope/lvm.c:379-404 | The compiler preserves meaning: compiling a condition in place and executing it returns the value of the tree that is built and reads exactly the compiled bytes. Without connectives in parentheses the result is what the tokens say of the values of their names: arithmetic of 32 bits, the six comparisons, conjunction and disjunction, and a math error on a division by zero. |
| `AqlMeaning.WhereMeans` | contiki-2.7/apps/antelope/lvm.c:165-298 | The value of the tree that is meant by a condition, in the machine, is what its tokens say under an assignment of numbers to names, written as operations on numbers without any operator code: `+ - * /`, `> >= < <= = <>`, AND and OR, the quotient toward zero, and no value where anything divides by zero. |
| `AqlMeaning.Ask` | contiki-2.7/apps/antelope/lvm.c:379-404 | The same from an assignment of names: compile, set every variable by its name, run. |
| `AqlTokens.AskTokens` | contiki-2.7/apps/antelope/aql-parser.c:350-447 | For the nine tokens of `x op a cmp b conn y cmp c`, with any names, numbers and operators: the answer as a formula of those, with no tree and no code. |
| `Derivation.CreateIntersection` | contiki-2.7/apps/antelope/lvm.c:496-537 | In every slot the range is the intersection of both, or the one that was derived; slots that neither has are left alone. |
| `Derivation.CreateUnion` | contiki-2.7/apps/antelope/lvm.c:539-580 | In every slot the range encloses both, or is the one that was derived. |
| `Derivation.DeriveComparison` | contiki-2.7/apps/antelope/lvm.c:623-687 | For two operands at the instruction position, the one bounded slot, or a derivation error for nested expressions, two variables, an unknown slot or an operator without a range. |
| `Derivation.DeriveConnective` | contiki-2.7/apps/antelope/lvm.c:594-621 | For AND and OR the combined tables of both sides, an error of either being an error; NOT is not derived. |
| `Derivation.DeriveRelation` | contiki-2.7/apps/antelope/lvm.c:582-687 | Derives from any code in place what the recursive definition over its tree says, and advances over exactly that code; or fails where it says so. |
| `Derivation.DerivedAreMentioned` | contiki-2.7/apps/antelope/lvm.c:582-687 | A slot has a range if and only if the condition mentions its variable. |
| `Derivation.DerivationIsSound` | contiki-2.7/apps/antelope/lvm.c:582-687 | For every AND/OR tree of variable-operator-literal comparisons whose ORs mention the same variables on both sides: a row that meets the condition has every derived variable in its range. |
| `Derivation.ConjunctionIsExact` | contiki-2.7/apps/antelope/lvm.c:582-687 | For conjunctions without a bound that wraps around: the condition holds if and only if every derived variable is in its range. |
| `Derivation.RangeIsExact` | contiki-2.7/apps/antelope/lvm.c:658-682 | The range of one comparison holds exactly the values that meet it if and only if it is not `> LONG_MAX` or `< LONG_MIN`, where the bound wraps around. |
| `Derivation.UnionIsSound` | contiki-2.7/apps/antelope/lvm.c:539-580 | A union of ranges covers all rows of both sides if and only if every variable that only one side bounds ends up unbounded: why ORs must mention the same variables. |
| `Derivation.UnevenOr` | contiki-2.7/apps/antelope/lvm.c:539-580 | One that does not: `x > 5 OR y > 5` holds at the row 0, 10, which is not in the ranges that are derived from it. |
| `Derivation.LiteralFirst` | contiki-2.7/apps/antelope/lvm.c:638-682 | With the literal on the left the operator is not turned around: the range holds every value that meets the comparison exactly for equality and a few extreme literals. |
| `Derivation.TwoLiterals` | contiki-2.7/apps/antelope/lvm.c:638-682 | With two literals the right one is taken for a variable number: the range derived for that variable holds every row that meets the condition if and only if the condition is false or the range is all there is. |
| `Derivation.LiteralsBesideAVariable` | contiki-2.7/apps/antelope/lvm.c:638-682 | `x > 5 AND 0 = 0` has an empty range for x: every row that meets it lies outside. |
| `InlineIndex.BinarySearch` | contiki-2.7/apps/antelope/index-inline.c:103-151 | The loop with unsigned bounds terminates for every column and target and ends where the recursive search does, also when `max` wraps around below the first row and it reads behind the relation. |
| `InlineIndex.LeavesTheRelation` | contiki-2.7/apps/antelope/index-inline.c:122-141 | On any sorted column a search reads outside the relation if and only if the target lies below the first value. |
| `InlineIndex.ProbeIsNear` | contiki-2.7/apps/antelope/index-inline.c:103-151 | Otherwise it ends at a row before which all values are smaller and behind which all are greater than the target. |
| `InlineIndex.ExactSearch` | contiki-2.7/apps/antelope/index-inline.c:103-151 | An exact search returns the row of the value if and only if the column has it. |
| `InlineIndex.InexactSearch` | contiki-2.7/apps/antelope/index-inline.c:103-151 | An inexact search always ends at a row next to the target. |
| `InlineIndex.SpanEncloses` | contiki-2.7/apps/antelope/index-inline.c:153-181 | The two ends found for a range enclose every row with its value in the range and at most one more row on each side; there is no span only for one value that is absent. |
| `InlineIndex.SpanLeaves` | contiki-2.7/apps/antelope/index-inline.c:153-181 | A range search reads outside the relation if and only if the relation is empty or a bound lies below its first value. |
| `InlineIndex.EqualValuesAreLost` | contiki-2.7/apps/antelope/index-inline.c:153-181 | On a sorted column with equal values, a search for one value finds one of its rows, hence all of them if and only if the value occurs at most once. |
| `InlineIndex.BoundsLoseRows` | contiki-2.7/apps/antelope/index-inline.c:153-181 | On a sorted column with equal values, a range search finds all rows of the range if and only if it ends at the first row with the lower bound and the last one with the upper bound, if there are any. |
| `InlineIndex.BoundsThatOccurOnce` | contiki-2.7/apps/antelope/index-inline.c:153-181 | So a range search whose two bounds occur at most once finds all rows of its range, whatever equal values lie between. |
| `InlineIndex.RangeOfEqualValues` | contiki-2.7/apps/antelope/index-inline.c:153-181 | On the column 5, 5, 6, 6 a search from 5 to 6 yields the middle two rows only. |
| `InlineIndex.ProbeSorted` | contiki-2.7/apps/antelope/index-inline.c:103-151 | On a sorted column a search ends at a row with the target, or next to where it would be. |
| `InlineIndex.Iterator.SearchRange` | contiki-2.7/apps/antelope/index-inline.c:153-181 | Two searches, exact if the bounds are equal, give the specified span or the reason why there is none. |
| `InlineIndex.Iterator.GetNext` | contiki-2.7/apps/antelope/index-inline.c:201-227 | Every call returns the next row of the span and moves on, or the end; a search that leaves the relation is told apart. |
| `Select.SelectIndex` | contiki-2.7/apps/antelope/relation.c:630-672 | The chosen attribute is the last one that has an index and a derived range. |
| `Select.ChoosesTheLast` | contiki-2.7/apps/antelope/relation.c:630-672 | The chosen attribute is usable and behind every other usable one. |
| `Select.NarrowerRangeLosesOut` | contiki-2.7/apps/antelope/relation.c:643-662 | The smallest range found so far is never recorded: of two usable attributes the second is chosen for any two ranges. |
| `Select.Selection.LoadRow` | contiki-2.7/apps/antelope/relation.c:786-814 | The variables of the condition have the values of the attributes with their names, whatever order the columns have, and the result tuple has the values of the stored attributes, each behind those of the stored attributes before it. |
| `Select.Selection.Process` | contiki-2.7/apps/antelope/relation.c:734-870 | One step asks exactly the next pending row, from the scan or from the index, emits it with the values of its stored attributes in their order if and only if the condition has the wanted value for it, and ends with the status that tells an absent key from the end. |
| `Select.Run` | contiki-2.7/apps/antelope/relation.c:734-870 | All steps together emit exactly the pending rows that meet the condition (or miss it, with inverse logic), in order, each once, and each with the values of its stored attributes. |
| `Select.ProjectHolds` | contiki-2.7/apps/antelope/relation.c:806-813 | The tuple of a row has one value for each stored attribute, and that of attribute k stands behind as many values as stored attributes come before k. |
| `Select.MatchingIs` | contiki-2.7/apps/antelope/relation.c:734-870 | The emitted sequence has exactly the rows that meet the condition, in ascending order. |
| `Select.PartIsEnough` | contiki-2.7/apps/antelope/relation.c:734-870 | Asking only some consecutive rows emits the same sequence as a full scan if and only if no row outside them meets the condition. |
| `Select.MatchesAreInRange` | contiki-2.7/apps/antelope/relation.c:630-672 | A row that meets the condition has its indexed value within the derived range. |
| `Select.SpanIsEnough` | contiki-2.7/apps/antelope/relation.c:734-845 | The rows that the index search yields contain every row that meets the condition, also when its range is empty. |
| `Select.SelectThroughIndex` | contiki-2.7/apps/antelope/relation.c:734-845 | With either logic, what is emitted are the rows with the wanted value among those that the searched index yields, in order. |
| `Select.SelectByIndex` | contiki-2.7/apps/antelope/relation.c:734-845 | SELECT through the derived range and the inline index emits exactly the same sequence of rows and tuples as the full scan filtered by the condition, contradictory conditions included, with an `int` of 16 or 32 bits; an absent exact value ends it with an index error instead of the normal end. |
| `AqlQuery.MeetsSays` | contiki-2.7/apps/antelope/relation.c:786-830 | A row meets a compiled condition if and only if that is what the tokens say of the values that the row has for the names. |
| `AqlQuery.Query` | contiki-2.7/apps/antelope/relation.c:734-870 | From tokens to rows: the condition is compiled and the relation scanned; the emitted rows are exactly those of whose values the condition says yes, ascending, with their stored values. |
| `AqlQuery.QueryByIndex` | contiki-2.7/apps/antelope/relation.c:734-870 | The same through the derived range and the inline index. |
| `Select.OpenBounds` | contiki-2.7/apps/antelope/relation.c:656-660 | With an `int` of 16 bits a one-sided comparison never has a range that survives the conversion of its bounds. |
| `Select.OpenAbove` | contiki-2.7/apps/antelope/relation.c:656-660 | For `x > v` and `x >= v` the search then reads behind the relation if and only if the column begins above -1 or above the bound that is left. |
| `Select.OpenAboveLosesRows` | contiki-2.7/apps/antelope/relation.c:656-660 | Otherwise, for a bound that fits, it finds all matching rows if and only if its last row is the last of the relation: not when two rows lie above the bound and -1, always when none does. |
| `Select.OpenBelow` | contiki-2.7/apps/antelope/relation.c:656-660 | For `x < v` and `x <= v` it reads behind the relation if and only if the column begins above 0 or above the bound that is left. |
| `Select.OpenBelowLosesRows` | contiki-2.7/apps/antelope/relation.c:656-660 | Otherwise, for a bound that fits, it finds all matching rows if and only if its first row is the first of the relation: not when two rows lie at 0 or below, always when the column begins with 0. |
| `Select.RemovalThroughIndexLosesRows` | contiki-2.7/apps/antelope/aql-exec.c:138-154 | A removal whose inverted selection goes through the index keeps the rows it should if and only if the index yields every row of the relation. |
| `Select.RemoveByIndex` | contiki-2.7/apps/antelope/aql-exec.c:138-154 | The removal through derived range, index search and step machine, with that condition. |
| `Select.RemovalOfOne` | contiki-2.7/apps/antelope/aql-exec.c:138-154 | Removing the rows with x = 1 from the rows 1 and 2 keeps none instead of the second. |
| `Select.TrueOrFalse` | contiki-2.7/apps/antelope/lvm.c:221-298 | A condition for which ranges are derived holds or does not; it never fails. |
| `Join.GenerateJoinResult` | contiki-2.7/apps/antelope/relation.c:1058-1108 | Every wanted attribute comes from a column of its name, from the left relation if that has one; a name error is returned if and only if neither has it. |
| `Join.Machine.FillIn` | contiki-2.7/apps/antelope/relation.c:1033-1042 | The joined row has one value for each attribute of the result: that of the stated column of the left row or of the right one. |
| `Join.Machine.NextMatch` | contiki-2.7/apps/antelope/relation.c:1010-1052 | The inner loop emits the next match of the current left row, or ends it and makes the next left row current; a match outside the right relation is an implementation error. |
| `Join.Machine.Process` | contiki-2.7/apps/antelope/relation.c:962-1056 | Each call resumes inside both loops and emits exactly the next pair of the nested loops; at the end it returns the end and stands where a new run begins. |
| `Join.Run` | contiki-2.7/apps/antelope/relation.c:962-1056 | Repeated calls emit exactly the pairs of the nested loops in their order, with the joined rows (what those hold: `Join.JoinedCells`, `Join.JoinByNames`), then the end. |
| `Join.NestedLoopsJoin` | contiki-2.7/apps/antelope/relation.c:962-1056 | With an index that has for every value exactly the rows that hold it, a pair is emitted if and only if its rows agree on the join attribute. |
| `Join.OuterOrder` | contiki-2.7/apps/antelope/relation.c:962-1056 | Each pair is emitted once, in the order of the left rows. |
| `Join.InnerInOrder` | contiki-2.7/apps/antelope/relation.c:1011-1030 | The matches of one left row are emitted in the order the index has them. |
| `Join.JoinedCells` | contiki-2.7/apps/antelope/relation.c:1033-1042 | In every emitted row every attribute has the value of its column in the left or right row of the pair. |
| `Join.JoinByNames` | contiki-2.7/apps/antelope/relation.c:962-1110 | End to end, by names: with an exact index the emitted pairs are all pairs of rows that agree on the join attribute, each once, by left row; in every joined row each wanted attribute has the value of the left row if the left relation has the name, and otherwise that of the right row. A wanted name that neither has is a name error, and then no row is emitted. |
| `Relation.Relation.ValueToPhy` | contiki-2.7/apps/antelope/result.c:117-148 | Overwrites exactly the bytes of the value in the record. |
| `Relation.BytesOfValue` | contiki-2.7/apps/antelope/result.c:117-148 | Which those are: two or four bytes of a number, high byte first, or the beginning of a string and a zero; all other bytes stay. |
| `StorageRows.ValueComesBack` | contiki-2.7/apps/antelope/result.c:84-113 | A stored value is read as the value modulo 2^16 or 2^32, or as its string cut to the element size with a zero at the end. |
| `StorageRows.OffsetsFit` | contiki-2.7/apps/antelope/relation.c:131-147 | The offset of an attribute and its size stay within the row and meet the offset of the next one. |
| `StorageRows.FieldInRow` | contiki-2.7/apps/antelope/relation.c:131-147 | The bytes at the offset of an attribute are those of its value. |
| `StorageRows.FlipIsXor` | contiki-2.7/apps/antelope/storage-cfs.c:69 | The arithmetic form used for the change of the last byte is the exclusive or with 0xF6, for all bytes. |
| `StorageRows.ScrambledTwice` | contiki-2.7/apps/antelope/storage-cfs.c:403-490 | Changing the last byte of a row twice restores it. |
| `StorageRows.RowInFile` | contiki-2.7/apps/antelope/storage-cfs.c:403-490 | In the file of any number of rows, the k-th row lies at k times the row length. |
| `Relation.Relation.Insert` | contiki-2.7/apps/antelope/relation.c:475-548 | A tuple is appended if and only if every attribute takes the domain of its value: its own, or INT where it is LONG; otherwise nothing changes. File, cardinality and next row stay those of the inserted tuples. |
| `Relation.Relation.PutRow` | contiki-2.7/apps/antelope/storage-cfs.c:440-490 | However the write loop is cut, the file grows by the row with its last byte changed, and the row of the caller is as before. |
| `Relation.Relation.GetRowAmount` | contiki-2.7/apps/antelope/storage-cfs.c:492-509 | File size divided by row length is the number of inserted tuples and the cardinality. |
| `Relation.Relation.GetRow` | contiki-2.7/apps/antelope/storage-cfs.c:403-437 | Row k is the row of the k-th inserted tuple; beyond the last one the end is returned. |
| `Relation.Relation.GetValue` | contiki-2.7/apps/antelope/result.c:47-79 | The value of a column as it was stored, or a limit error behind the last column. |
| `Relation.Relation.ReadBack` | contiki-2.7/apps/antelope/result.c:47-113 | After any insertions, column c of row k reads back the c-th value of the k-th inserted tuple, in the width of its attribute. |
| `HeapTree.Levels` | contiki-2.7/apps/antelope/index-maxheap.c:69-77 | The nodes of depth d are those at positions 2^d - 1 up to 2^(d+1) - 2. |
| `HeapTree.Width` | contiki-2.7/apps/antelope/index-maxheap.c:225-260 | A node at depth d has a range of 2^(16-d) hashes, so that no used node looks like an empty one. |
| `HeapTree.Halves` | contiki-2.7/apps/antelope/index-maxheap.c:416-445 | The children of a node are exactly the two halves of its range: together they have its hashes and none in common. |
| `HeapTree.OnlyOnPath` | contiki-2.7/apps/antelope/index-maxheap.c:262-292 | On each level exactly one node has a given hash in its range. |
| `HeapTree.WalkStep` | contiki-2.7/apps/antelope/index-maxheap.c:225-260 | One step of the insertion walk towards an unused child stays on the way to it: it ends there and nowhere else. |
| `HeapTree.SplitKeepsTree` | contiki-2.7/apps/antelope/index-maxheap.c:416-445 | Using both children of a used node keeps the tree invariant. |
| `MaxHeap.Heap.constructor` | contiki-2.7/apps/antelope/index-maxheap.c:494-585 | A new index has the root for all hashes, empty buckets, and satisfies the invariant. |
| `MaxHeap.Heap.HeapInsert` | contiki-2.7/apps/antelope/index-maxheap.c:225-260 | For the range of an unused child of a used node, the scan puts it at that very position (2p+1 or 2p+2) and nothing else changes; for a child on the last level that is used already it fails with nothing changed. |
| `MaxHeap.Heap.HeapFind` | contiki-2.7/apps/antelope/index-maxheap.c:262-292 | From where the last call stopped, finds the node of the next depth whose range has the hash, if it is used and above the last level: repeated calls visit exactly that chain. |
| `MaxHeap.Heap.FindTarget` | contiki-2.7/apps/antelope/index-maxheap.c:447-461 | The repeated search ends at the deepest used node above the last level on the path of the key. |
| `MaxHeap.Heap.BucketSplit` | contiki-2.7/apps/antelope/index-maxheap.c:416-445 | Puts both halves at 2p+1 and 2p+2 and changes no other node; fails with nothing changed exactly if the children are used already. |
| `MaxHeap.Heap.BucketAppend` | contiki-2.7/apps/antelope/index-maxheap.c:394-414 | A pair is appended if and only if its bucket is not full. |
| `MaxHeap.AppendToBucket` | contiki-2.7/apps/antelope/index-maxheap.c:394-414 | An append adds the pair to its bucket and leaves every pair of every bucket where it is. |
| `MaxHeap.AppendIsRecorded` | contiki-2.7/apps/antelope/index-maxheap.c:394-414 | After an append, slots in use and successful insertions still correspond one to one, and every pair lies on the path of its key. |
| `MaxHeap.SplitIsRecorded` | contiki-2.7/apps/antelope/index-maxheap.c:416-445 | After a split every pair still lies in a used bucket on the path of its key. |
| `MaxHeap.Heap.InsertItem` | contiki-2.7/apps/antelope/index-maxheap.c:447-492 | Keeps the invariant; the pair is appended to the deepest bucket on its path, or to its child if that is full, which has the hash of its key in its range, and recorded behind all earlier ones, none of which moves. It fails if and only if that bucket is full and on the last level that has buckets, and then loses nothing; a full bucket without children is split even then. |
| `MaxHeapSearch.BucketRead` | contiki-2.7/apps/antelope/index-maxheap.c:330-350 | Reads the pairs of a bucket; what has not been written reads as empty. |
| `MaxHeapSearch.Cache.BucketLoad` | contiki-2.7/apps/antelope/index-maxheap.c:352-392 | A bucket that is not cached is loaded as it is in the file; a cached one is kept even if it is stale. The recovered number of pairs is the recorded one. |
| `MaxHeapSearch.AppendKeepsCoherent` | contiki-2.7/apps/antelope/index-maxheap.c:394-414 | A cached bucket stays what the file has if and only if the append went to another bucket (or the cached bytes behind its pairs happen to be that pair). |
| `MaxHeapSearch.Iterator.FindPath` | contiki-2.7/apps/antelope/index-maxheap.c:691-707 | The array of visited nodes is the path of the key, and never needs more than its nine entries. |
| `MaxHeapSearch.Iterator.SearchOn` | contiki-2.7/apps/antelope/index-maxheap.c:709-739 | Resumes within the path and returns the next find with its value, from the bottom bucket upwards. |
| `MaxHeapSearch.Iterator.constructor` | contiki-2.7/apps/antelope/index-maxheap.c:668-708 | A new iterator has to yield what a range query finds, and for one key exactly what a search of that key finds. |
| `MaxHeapSearch.Iterator.GetNext` | contiki-2.7/apps/antelope/index-maxheap.c:668-750 | Terminates and returns exactly the next of the values that the search of the current key and then of the keys up to `max` finds. |
| `MaxHeapLookup.FindsEveryMatch` | contiki-2.7/apps/antelope/index-maxheap.c:715-739 | A search finds every matching pair if and only if their slot numbers increase from each bucket to those above it, since the place to begin at is not reset between buckets. |
| `MaxHeapLookup.OneKeyTooOften` | contiki-2.7/apps/antelope/index-maxheap.c:715-739 | A reachable state in which a search misses a pair: for every hash function and key, after 129 insertions of the key the first pair of all is not found. |
| `MaxHeapLookup.InsertionIsMatch` | contiki-2.7/apps/antelope/index-maxheap.c:668-743 | Every inserted pair is in one of the buckets that a search for its key visits. |
| `MaxHeapLookup.MatchIsInsertion` | contiki-2.7/apps/antelope/index-maxheap.c:668-743 | Every matching pair of those buckets was inserted. |
| `MaxHeapLookup.LookupFindsInserted` | contiki-2.7/apps/antelope/index-maxheap.c:668-743 | For every hash function and history: a new equality search returns a value if and only if one was inserted under the key, and only such values. |
| `MaxHeapLookup.UniqueKeyIsFound` | contiki-2.7/apps/antelope/index-maxheap.c:668-743 | With unique keys a search returns exactly the value inserted under its key, once. |
| `MaxHeapLookup.RangeIsFound` | contiki-2.7/apps/antelope/index-maxheap.c:668-750 | With unique keys the emulated range query returns what was inserted under the numbers from `low` to `high`, one after another. |
| `MaxHeapLookup.RangeHolds` | contiki-2.7/apps/antelope/index-maxheap.c:668-750 | In terms of the pairs: with unique keys a value is found if and only if a pair with it and a key from `low` to `high` has been inserted, and the values stand in the ascending order of those keys. |
| `MaxHeapLookup.ValuesOfRange` | contiki-2.7/apps/antelope/index-maxheap.c:668-750 | An iterator over the buckets, called to its end, yields just that. |
| `CoapOption.Log2` | contiki-2.7/apps/er-coap-12/er-coap-12.c:71-82 | The loop computes the logarithm rounded down, and 0 for 0. |
| `CoapOption.LogBounds` | contiki-2.7/apps/er-coap-12/er-coap-12.c:71-82 | 2^log is at most the value and more than half of it. |
| `CoapOption.ParseIntOption` | contiki-2.7/apps/er-coap-12/er-coap-12.c:84-96 | The loop computes the big-endian number modulo 2^32. |
| `CoapOption.IntRoundTrip` | contiki-2.7/apps/er-coap-12/er-coap-12.c:166-186 | Parsing the bytes of a serialized number, which has no leading zeros, gives the number, for all 32-bit numbers. |
| `CoapOption.SetOptionHeader` | contiki-2.7/apps/er-coap-12/er-coap-12.c:98-125 | Overwrites exactly the header of the option, with as many extension bytes as its length needs. |
| `CoapOption.InsertOptionJump` | contiki-2.7/apps/er-coap-12/er-coap-12.c:127-164 | Overwrites exactly the jump, and returns the number that the sender goes on from. |
| `CoapStream.HeaderIsNoJump` | contiki-2.7/apps/er-coap-12/er-coap-12.c:98-125 | No option header is mistaken for a jump or the terminator (0xF0 to 0xF3). |
| `CoapStream.ReadsOption` | contiki-2.7/apps/er-coap-12/er-coap-12.c:461-509 | Behind any bytes and before any bytes, a serialized option is read with its value, and with the number that a receiver makes of the difference. |
| `CoapStream.ProxyUriIsRead` | contiki-2.7/apps/er-coap-12/er-coap-12.c:127-164 | A second form of jump does not go on by what the sender assumes: Proxy-Uri is read under its own number if and only if the option before it is number 6 or later. |
| `CoapText.MergeJoins` | contiki-2.7/apps/er-coap-12/er-coap-12.c:243-265 | Merging segments joins them with the separator, without the empty ones at the beginning. |
| `CoapText.ComesBack` | contiki-2.7/apps/er-coap-12/er-coap-12.c:191-241 | A string comes back from its segments if and only if it does not begin with its separator and every separator that splits it is followed by a byte that is no slash. |
| `CoapText.CleanPath` | contiki-2.7/apps/er-coap-12/er-coap-12.c:191-241 | For a path that means: no slash at either end and no two in a row. |
| `CoapSerialize.OptionsSorted` | contiki-2.7/apps/er-coap-12/er-coap-12.c:339-408 | The options of a packet are serialized in the order of their numbers. |
| `CoapSerialize.SerializeIntOption` | contiki-2.7/apps/er-coap-12/er-coap-12.c:166-186 | Writes jump, header and number of the option, and nothing else, though the number is written before its header. |
| `CoapSerialize.SerializeWhole` | contiki-2.7/apps/er-coap-12/er-coap-12.c:191-241 | Writes an option with all bytes of the value. |
| `CoapSerialize.SerializeParts` | contiki-2.7/apps/er-coap-12/er-coap-12.c:191-241 | Splits a string in one pass into its segments and writes one option for each; counts them. |
| `CoapSend.SerializeField` | contiki-2.7/apps/er-coap-12/er-coap-12.h:260-315 | Writes exactly the options of one field of the packet, of whatever kind, and counts them (which those are, by option number: `CoapWire.SettableByNumber`, `QueriesSplit`, `PathsSplit`, `SentWhole`, `NumbersSent`). |
| `CoapSend.SerializeOptions` | contiki-2.7/apps/er-coap-12/er-coap-12.c:339-380 | Writes all options of the packet behind the fixed header, in order, with the differences between their numbers. |
| `CoapSend.SerializeMessage` | contiki-2.7/apps/er-coap-12/er-coap-12.c:339-408 | Writes exactly the message: fixed header, options, terminator from 15 options on, payload; nothing is returned if and only if the header is too long. |
| `CoapReceive.BlockArrives` | contiki-2.7/apps/er-coap-12/er-coap-12.c:616-631 | A block option arrives with its number and flag, with its size rounded down to a power of two, and with the offset number times size, which 32 bits always hold. |
| `CoapReceive.ReadsList` | contiki-2.7/apps/er-coap-12/er-coap-12.c:461-651 | Any sorted list of options without a long difference is read from its bytes, one after another, and stored in order. |
| `CoapReceive.StoresField` | contiki-2.7/apps/er-coap-12/er-coap-12.c:511-648 | Storing the options of a field gives the field as it arrives. |
| `CoapParse.Message.ReadHead` | contiki-2.7/apps/er-coap-12/er-coap-12.c:463-509 | Reads number, place and length of the option at a position, or sees the terminator or the end of the bytes. |
| `CoapParse.MergesInPlace` | contiki-2.7/apps/er-coap-12/er-coap-12.c:243-265 | Moving a segment behind the string of its option never passes where the segment was, changes no other string and nothing that is still to be read. |
| `CoapParse.Message.MergeMultiOption` | contiki-2.7/apps/er-coap-12/er-coap-12.c:243-265 | The in-place append makes the string in the buffer the merged one and leaves all other fields and all unread bytes alone. |
| `CoapParse.Message.StoreOption` | contiki-2.7/apps/er-coap-12/er-coap-12.c:511-648 | Stores any option as a reader of an unchanged message would, or refuses it for the same reason: unknown critical options, proxying, numbers the bitmap has no room for. |
| `CoapParse.Message.ParseOptions` | contiki-2.7/apps/er-coap-12/er-coap-12.c:449-653 | Reading options while the buffer is being rewritten gives the same fields as reading the original bytes, for any number of options and any header sizes. |
| `CoapParse.Message.ParseMessage` | contiki-2.7/apps/er-coap-12/er-coap-12.c:425-668 | For every buffer content: the parsed message is the specified one, its strings lie in the buffer apart from one another, and the zero behind the payload damages none of them. |
| `CoapRoundTrip.ParseOfSerialized` | contiki-2.7/apps/er-coap-12/er-coap-12.c:425-668 | Every packet without Proxy-Uri is parsed, and as what: from 15 options on its payload has the terminator in front. |
| `CoapRoundTrip.RoundTrip` | contiki-2.7/apps/er-coap-12/er-coap-12.c:339-668 | Parsing undoes serializing if and only if every string of segments is clean, block sizes are powers of two, and there are fewer than 15 options (or the payload is full of terminators). |
| `CoapRoundTrip.ManySegments` | contiki-2.7/apps/er-coap-12/er-coap-12.c:339-668 | A packet that does not come back: every one whose only option is a path of 15 to 32 segments of one byte has a header that is not too long, and arrives with the terminator before its payload. |
| `CoapExchange.Exchange` | contiki-2.7/apps/er-coap-12/er-coap-12.c:339-668 | End to end in one buffer: what the in-place parser leaves after the in-place serializer is the packet as it arrives, every string at its place in the buffer, or nothing was sent since the header is too long. |
| `CoapWire.SettableByNumber` | contiki-2.7/apps/er-coap-12/er-coap-12.h:161-258 | What each option holds, by its number: nothing, a number of two or four bytes, at most eight bytes, a string, one or two media types, or a block. |
| `CoapWire.QueriesSplit` | contiki-2.7/apps/er-coap-12/er-coap-12.c:366-369 | `a&b` in Uri-Query or Location-Query is sent as the two options `a` and `b`. |
| `CoapWire.PathsSplit` | contiki-2.7/apps/er-coap-12/er-coap-12.c:362-363 | `a/b` in Location-Path or Uri-Path is sent as the two options `a` and `b`. |
| `CoapWire.SentWhole` | contiki-2.7/apps/er-coap-12/er-coap-12.c:356-373 | If-Match, ETag, Token, Uri-Host and Proxy-Uri are sent in one option with all bytes, as are paths without slash and queries without ampersand. |
| `CoapWire.NumbersSent` | contiki-2.7/apps/er-coap-12/er-coap-12.c:359-372 | Numbers are sent in one option each; a block in one with its number, its flag and the logarithm of its size. |
| `CoapWire.StoredByNumber` | contiki-2.7/apps/er-coap-12/er-coap-12.c:514-650 | What a received option does, by its number, and for an unknown number whether it is refused or passed over. |
| `CoapWire.OptionBytesAre` | contiki-2.7/apps/er-coap-12/er-coap-12.c:100-166 | The bytes of an option on the wire: jump, header byte, length bytes, value. |
| `CoapWire.MessageBytesAre` | contiki-2.7/apps/er-coap-12/er-coap-12.c:340-408 | The bytes of a message: version 1, type, number of options, code and message id, options, terminator, payload. |
| `CoapWire.Example` | contiki-2.7/apps/er-coap-12/er-coap-12.c:340-408 | A whole message byte for byte: 42 01 12 34 F1 01 78 01 79 for a request for the query `x&y`. |
| `CoapWire.NumberBytes` | contiki-2.7/apps/er-coap-12/er-coap-12.c:168-190 | Numbers are sent high byte first without leading zeros. |
| `CoapWire.VersionIsChecked` | contiki-2.7/apps/er-coap-12/er-coap-12.c:426-460 | A message of another version is a bad request; of one that is accepted, type, code and message id are read from their places. |
| `WellKnownCore.Block.PutChar` | contiki-2.7/apps/er-coap-12/er-coap-12-engine.c:389-408 | One character: the buffer holds the window of the text one longer. |
| `WellKnownCore.Block.PutString` | contiki-2.7/apps/er-coap-12/er-coap-12-engine.c:410-421 | A whole string: the buffer holds the window of the longer text, and is found full if and only if the text reaches the end of the block. |
| `WellKnownCore.Block.PutResource` | contiki-2.7/apps/er-coap-12/er-coap-12-engine.c:387-455 | A resource: the buffer holds the window of the listing with it, and is found full behind its URL or its attributes but not behind the bracket alone. |
| `WellKnownCore.Handler` | contiki-2.7/apps/er-coap-12/er-coap-12-engine.c:305-481 | For every list of resources and every offset below its length, the first `preferred` characters of the answer are that slice of the link-format listing; beyond it the answer is an error; the next offset says whether the end of the listing was not reached, or was reached exactly with attributes. |
| `WellKnownCore.Receive` | contiki-2.7/apps/er-coap-12/er-coap-12-engine.c:115-196 | The answer to a request for a block is the part of the listing from its number times the requested size on, as long as the smaller of the requested size and that of the server, with the block option that says so; behind the listing it is the error of code 130. |
| `WellKnownCore.ListingOfTwo` | contiki-2.7/apps/er-coap-12/er-coap-12-engine.c:386-455 | The listing of two resources, character for character, where one of them has attributes. |
| `WellKnownCore.StatedSize` | contiki-2.7/apps/er-coap-12/er-coap-12.h:305-315 | A chunk size that is a power of two from 16 to 2048 is what the block option of a request states; other sizes are rounded down by the serializer. |
| `WellKnownCore.BlockingRequest` | contiki-2.7/apps/er-coap-12/er-coap-12-engine.c:515-581 | The blocks that the client gets are numbers 0, 1, 2 and so on, and together the listing, followed by an error message if and only if the chunk size divides its length and its last resource has attributes. |
| `Transactions.Pool.NewTransaction` | contiki-2.7/apps/er-coap-12/er-coap-12-transactions.c:77-96 | Takes the first free slot, and fails if and only if there is none; the callback of the last user stays in it. |
| `Transactions.Pool.SendTransaction` | contiki-2.7/apps/er-coap-12/er-coap-12-transactions.c:98-155 | A confirmable message is kept with a timer while its counter is below four, its first interval random within two to three seconds and later ones doubled; otherwise it has ended, is freed, and its callback is the one to call. Other slots are untouched. |
| `Transactions.Pool.Clear` | contiki-2.7/apps/er-coap-12/er-coap-12-transactions.c:157-168 | Frees exactly the slot and takes it off the list. |
| `Transactions.Pool.Reply` | contiki-2.7/apps/er-coap-12/er-coap-12-engine.c:236-247 | An answer ends the first transaction on the list with its message id, if there is one, frees it, and calls its callback once; nothing else changes. |
| `Transactions.Pool.CheckTransactions` | contiki-2.7/apps/er-coap-12/er-coap-12-transactions.c:185-199 | In the order of the list, every message whose interval is over is sent again once, now, with a doubled interval, and every other one is left alone, up to the first that is due for the last time: that one is sent a fifth time, freed and its callback called, and those behind it are not looked at. |
| `Transactions.TransmitIn` | contiki-2.7/apps/er-coap-12/er-coap-12-transactions.c:77-155 | A message is sent once, now, in a new transaction in the first free slot, with its message id and its callback or, without one, the callback that is in the slot; a message that needs no answer is over at once. |
| `Transactions.CheckedSlot` | contiki-2.7/apps/er-coap-12/er-coap-12-transactions.c:185-199 | What a pass over the timers can do to one open transaction: nothing, one more send, or the last send with its callback. |
| `Transactions.SumOfDoubling` | contiki-2.7/apps/er-coap-12/er-coap-12-transactions.c:98-155 | Doubled intervals add up to twice the last minus the first. |
| `Transactions.LastSend` | contiki-2.7/apps/er-coap-12/er-coap-12-transactions.c:98-155 | At most five sends; the scheduled last one is at most 45 seconds after the first, and exactly 15 first intervals after it when all five are made. |
| `Transactions.NotEarly` | contiki-2.7/apps/er-coap-12/er-coap-12-transactions.c:98-155 | The k-th send does not come before its schedule. |
| `Transactions.Run` | contiki-2.7/apps/er-coap-12/er-coap-12-transactions.c:77-199 | In every sequence of transmissions, answers, waits and timer passes each step does what is stated of it; each transaction that was started is open or has ended, every ended one kept to the schedule, and the callbacks that were called are theirs, in order, one for each confirmable one. |
| `Transactions.TraceCounts` | contiki-2.7/apps/er-coap-12/er-coap-12-transactions.c:77-199 | Over any run: open and ended transactions together are those there were and those that were started; the calls are those of the ended ones. |
| `Transactions.OwnCallback` | contiki-2.7/apps/er-coap-12/er-coap-12-transactions.c:98-155 | Over any run: the callback that a confirmable message was sent with is called by the step that ends its transaction, and by no step before. |
| `Transactions.StaleCallback` | contiki-2.7/apps/er-coap-12/er-coap-12-transactions.c:77-96 | Over any run, for every slot: a confirmable message without a callback of its own calls, when it ends, what was left in its slot, hence nothing if and only if nothing was. |
| `Transactions.StaleExchange` | contiki-2.7/apps/er-coap-12/er-coap-12-engine.c:236-247 | In every pool with a free slot, sending a message without a callback and answering it calls what is in the slot. |
| `Codeprop.Source.StartBroadcast` | contiki-2.7/apps/codeprop/codeprop.c:428-436 | The next version is sent from its beginning, with the image written over the storage. |
| `Codeprop.Source.SendData` | contiki-2.7/apps/codeprop/codeprop.c:201-225 | The packet has the bytes of the storage at the current address, at most 32, and the source goes on behind them. |
| `Codeprop.SentIsAuthentic` | contiki-2.7/apps/codeprop/codeprop.c:201-225 | Whatever a source sends is the part of the current image at the stated address. |
| `Codeprop.Source.HearNack` | contiki-2.7/apps/codeprop/codeprop.c:227-266 | The source goes back to the address a NACK asks for, never forward. |
| `Codeprop.Receiver.Hear` | contiki-2.7/apps/codeprop/codeprop.c:276-357 | Exactly what a receiver does with any packet: a first packet of a newer version is stored at address 0 whatever address it has, with a NACK for 0 if that is another; a packet for the current address is appended; one for a later address is answered with a NACK for the first missing byte; all others change nothing. The last byte ends the version and starts the program. |
| `Codeprop.HeardIsHearer` | contiki-2.7/apps/codeprop/codeprop.c:276-357 | With authentic packets a receiver holds its first packet followed by the image behind it; versions only grow, and so does the address within a version; the program starts only with all bytes there. |
| `Codeprop.FirstPacket` | contiki-2.7/apps/codeprop/codeprop.c:288-306 | The first packet of a version establishes this, whatever address it was for. |
| `Codeprop.NextPacket` | contiki-2.7/apps/codeprop/codeprop.c:311-324 | A packet for the current address keeps it. |
| `Codeprop.WholeImage` | contiki-2.7/apps/codeprop/codeprop.c:276-357 | When all bytes have come, the storage is the image if and only if the first accepted packet had what belongs to the beginning; so always if it was the one for address 0. |
| `Codeprop.SecondHalfTwice` | contiki-2.7/apps/codeprop/codeprop.c:288-345 | The second half of an image that arrives first, and again, is stored twice and starts the program, though a NACK has asked for address 0; the image is right if and only if its halves are equal. |
| `Codeprop.WrongLaunch` | contiki-2.7/apps/codeprop/codeprop.c:288-352 | From every state with an idle receiver of an older version there is a run, with a packet that another node sends, that launches a wrong image. |
| `Codeprop.WrongLaunchOfSource` | contiki-2.7/apps/codeprop/codeprop.c:201-352 | With the packets of the source alone, for every image of at least 64 bytes: when the first packet is lost, the second arrives twice and all others arrive, the program is started, with a wrong image if and only if the first two packets differ. |
| `Codeprop.NextIsWorld` | contiki-2.7/apps/codeprop/codeprop.c:201-357 | Every step keeps all packets under way authentic, both nodes sound and all launches right in the above sense, and there are as many new launches as starts. |
| `Codeprop.LaunchesOfRun` | contiki-2.7/apps/codeprop/codeprop.c:201-357 | So does every run. |
| `Codeprop.Run` | contiki-2.7/apps/codeprop/codeprop.c:201-357 | A source and a receiver follow the specified run over a network that loses, repeats and reorders packets; the program is started as often as there are launches in it, and each launch has the image if and only if its first packet brought what belongs to the beginning. |
| `InternetChecksum.Ip4Sum` | contiki-2.7/tools/tunslip.c:342-361 | The loop computes the word sum folded by end-around carries, from any folded start; an odd last byte is a high byte. |
| `InternetChecksum.ByteCounts` | contiki-2.7/tools/tunslip.c:342-361 | The word sum: a byte at an even place counts 256 times, one at an odd place once. |
| `InternetChecksum.AddFolds` | contiki-2.7/tools/tunslip.c:342-361 | Adding a word with end-around carry is addition modulo 65535 that keeps zero apart from 65535. |
| `InternetChecksum.SumTogether` | contiki-2.7/tools/tunslip.c:342-361 | Sums over a text cut at an even position add up. |
| `InternetChecksum.SwapAdds` | contiki-2.7/tools/tunslip.c:642-655 | Addition with end-around carry commutes with swapping bytes, so the update does not depend on the byte order of the host. |
| `IpPacket.Check` | contiki-2.7/tools/tunslip.c:363-412 | The code of the first check that fails, for header, TCP, UDP and ICMP sums over the specified words. |
| `IpPacket.CheckMeans` | contiki-2.7/tools/tunslip.c:363-412 | What is checked, in bytes: version, length, and which words add up to a multiple of 65535, those of the header, those of the segment behind the pseudo header of both addresses, protocol and length, and those of an ICMP message; an absent UDP sum is not. |
| `IpPacket.PacketThatPasses` | contiki-2.7/tools/tunslip.c:363-412 | A datagram from 10.0.0.1 to 10.0.0.2 that passes, byte for byte. |
| `IpPacket.RewriteId` | contiki-2.7/tools/tunslip.c:642-655 | On hosts of either byte order the packet gets the identification, high byte first, and a checksum that is less by it modulo 65535; no other byte changes. |
| `IpPacket.HeaderAfterRewrite` | contiki-2.7/tools/tunslip.c:642-655 | A header that passed passes again if and only if its stated length covers both rewritten words or neither, or the identification counts as zero. |
| `IpPacket.PayloadAfterRewrite` | contiki-2.7/tools/tunslip.c:642-655 | The sums over what follows the header pass as before. |
| `IpPacket.RewriteKeepsChecks` | contiki-2.7/tools/tunslip.c:626-660 | A packet that has passed the check passes it again after the rewriting, if and only if its header length is not stated as 2 words or the identification counts as zero. |
| `Tunslip.Tunnel.SlipSend` | contiki-2.7/tools/tunslip.c:589-596 | Appends one byte if there is room, and otherwise changes nothing. |
| `Tunslip.Tunnel.WriteToSerial` | contiki-2.7/tools/tunslip.c:626-680 | What is appended to the pending bytes is the SLIP encoding of the packet, which has the next identification if it had none and must not be fragmented, and is unchanged otherwise; a packet is dropped, with the code of the failing check and nothing appended, if and only if it fails a check before or after; identifications are used up only by packets that get one. |
| `Tunslip.SecondCheckPasses` | contiki-2.7/tools/tunslip.c:636-655 | Of the packets that the code gives an identification, those fail the second check whose header is stated to be 2 words long, on hosts of little byte order, unless the identification counts as zero. |
| `Tunslip.ShortHeaderOnBigHost` | contiki-2.7/tools/tunslip.c:636-655 | On hosts of big byte order no packet with a header of 2 words that passes the header check gets an identification. |
| `Tunslip.ShortHeaderFails` | contiki-2.7/tools/tunslip.c:636-655 | A packet that fails: header bytes 42 00 00 0C 00 00 BD F3, length 12. |
| `Slip.Reader.SerialToTun` | contiki-2.7/tools/tunslip.c:453-584 | The loop over what is available does what feeding its bytes one by one does, also when they end between an escape and its second byte. |
| `Slip.CutsTogether` | contiki-2.7/tools/tunslip.c:453-584 | Feeding a stream in any pieces gives what feeding it at once gives. |
| `Slip.FeedEncoded` | contiki-2.7/tools/tunslip.c:453-584 | The encodings of packets are read as those packets. |
| `Slip.StreamRoundTrip` | contiki-2.7/tools/tunslip.c:453-680 | Packets of 1 to 1999 bytes are read back exactly, however the stream is cut across calls. |
| `Slip.OnTheLine` | contiki-2.7/tools/tunslip.c:659-678 | A packet of one byte on the line: C0 becomes DB DC, DB becomes DB DD, every other byte stands for itself, and C0 ends the packet. |
| `Slip.UselessEscape` | contiki-2.7/tools/tunslip.c:560-580 | An escape before any other byte is passed over. |
| `Slip.TooLong` | contiki-2.7/tools/tunslip.c:453-584 | Of a packet of any number of plain bytes, the reader keeps those behind the last multiple of 2000. |

## Left out

- Sizes: the Antelope model has 2-byte enums and a 4-byte `long`, as on 16-bit targets; padding bytes of operands are zero.
- AqlSyntax: lexing of AQL; conditions are token sequences. String and float operands are accepted by the parser and emit nothing, as in the code, but no property is stated about conditions with them.
- Lvm.Machine.RegisterVariable: names are not truncated to the length of their field. Error line numbers are one flag.
- AqlParser.Parser.ParseWhere: of failures, those are described that a missing comparison operator or missing parentheses cause; a comparison without a right side, say, has just one of the possible statuses.
- AqlMeaning.WhereEncodesAReading: conditions with connectives in parentheses, whose code is never that of what they mean (`AqlMeaning.CompiledAsMeant`).
- AqlMeaning.CompileAndRun: conditions behind whose parentheses with connectives another connective follows; their code is stated (`AqlParser.Parser.ParseWhere`), but no value.
- Select.SelectIndex: that an iterator for the chosen index can be had; it cannot while the index is being built, or for a wide range and an index that only emulates ranges. The code then scans.
- Select.Selection.Process: rows of an aggregation, rows that are stored in a new relation, and storage errors.
- Processing attributes, aggregates (SUM, MEAN, MAX, MIN, COUNT) and assignment of a result to a new relation: simple updates per row behind what is proved of the rows.
- InlineIndex.Iterator.GetNext: the tuple numbers are cached per iterator; in the code they are static, so that two interleaved iterators disturb each other. The branch for unique keys in `index_get_next` is not modelled.
- AqlQuery.QueryByIndex: like `Select.SelectByIndex` only in the ranges that can be searched.
- Select.SelectByIndex: not with inverse logic, for which the code gives wrong results (see `Select.RemovalThroughIndexLosesRows`), and with bounds that fit an `int` and do not lie below the first value, where it reads behind the relation (see `InlineIndex.SpanLeaves`, `Select.OpenAbove`, `Select.OpenBelow`).
- Select.Selection.LoadRow: values are numbers, the ones that the machine and the index both make of the stored bytes on a 16-bit target; string attributes and storage errors are left out. The tuple is the list of its stored values; the code puts the attributes that only the condition needs behind them.
- Join: the index of the right relation is a map from values to rows; its own searches are proved in `InlineIndex` and `MaxHeapLookup`.
- Relation.Relation.Insert: indexes on the attributes are not updated with it, and integrity checks and relations without attributes are not modelled. Files are sequences of bytes to which writes succeed.
- Relation.Relation.GetValue: results of selections have attributes that are not stored, which the code skips; a relation itself has none.
- MaxHeap.Heap.constructor: an index loaded from an earlier session, whose bucket fill levels are then recovered on first use.
- MaxHeap.Heap.InsertItem: `transform_key` is an arbitrary table from keys to hashes; other indexes that share the bucket cache evict a bucket at most.
- MaxHeapSearch.Iterator.GetNext: for ranges with `min <= max`, and for buckets loaded after their last append, as a stale one hides pairs; the search that the code caches in static variables belongs to one iterator.
- CoapOption.InsertOptionJump: option numbers are below 2^16, so that their sums do not wrap around.
- CoapParse.Message.ParseMessage: bytes outside the message have no value; a message that makes the code read them is `Undefined`.
- CoapRoundTrip.RoundTrip: Proxy-Uri, which is refused by the parser.
- CoapSend.SerializeMessage: the buffer has room for the header even if that is too long, as the code checks afterwards.
- Setters and getters of options, Block1, observers, separate responses, filtering of resources.
- WellKnownCore.Receive: the branch for handlers that do not know about blocks, which this handler never takes; a request for which no transaction is free gets no such answer.
- WellKnownCore.BlockingRequest: every request is answered with the block that was asked for, so that the count of wrong blocks stays zero; loss is the subject of `Transactions`. Listings are shorter than 2^16.
- Transactions.Run: callbacks do not call back into the pool, a message is sent in the step in which its transaction begins, and the clock does not wrap around.
- Codeprop.Run: a node is a source or a receiver; that the image arrives in the end needs assumptions about the network and is not stated. The TCP loader, loading of programs and LEDs are left out.
- IpPacket.RewriteKeepsChecks: for packets of at least 12 bytes, as the checksum lies in bytes 10 and 11.
- Slip.Reader.SerialToTun: the packets are those that are complete; the code checks them as `IpPacket.Check` does before it hands them on, and prints or uses as an address what fails.
- Tunslip.Tunnel.WriteToSerial: flushing of the pending bytes to the device, tun and tty handling, the DHCP relay.
