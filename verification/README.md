# Verified model of cashlib

cashlib is a C++ library for electronic cash: number theory on top of GMP, modular
exponentiation with precomputed tables, a compiler and interpreter for the
zero-knowledge proof language ZKPDL, and the structures of fair exchange (Merkle
trees, random-access encryption, a wallet). This project models the parts in which
short code carries a mathematical claim, in the form the code has (loops, tables,
objects with fields), and proves the claims.

| modules | part of the library | main results |
|---|---|---|
| TwoSquares, IntegerSqrt, IsqrtLimit, FourSquares | `FourSquares.cpp` | four results that square up to n, and exactly when there are any, whatever the primality tests answer; `isqrt` is exact up to 2^1024, above that exactly under a stated condition, and a number of 1793 bits on which it is wrong |
| Primes, MillerRabin, Sieve, PrimeSequence | `NTL/ZZ.cpp` | Fermat's little theorem, a Miller-Rabin witness proves compositeness, the sieve delivers all primes up to (2B+1)^2 in order |
| ModExp, MultiExp, MultiExpCache, PowerCache, Environment | the exponentiation caches | three table algorithms and their dispatch all compute the plain product of powers; exactly when the tables that are filled at compile time give what is asked of them later, and what happens otherwise |
| Ast, Evaluation, ConstantFolding, ForExpander, DescribeRelations | the ZKPDL compiler | substitution and folding to a fixpoint, expansion of loops and flattening of products each preserve meaning, and exactly when they succeed |
| Group, Pedersen, Sigma, Translator, Interpreters, RangeProofs, RangeTables, RangeEvaluation, RangeRun, RangeTranslation, Ranges | ZKPDL proofs | completeness and special soundness of the protocol with its powers from the tables, and of any number of range proofs from translation to the verifier's verdict, with the exact condition for acceptance |
| Merkle, Ciphertext, Wallet | `Merkle*.cpp`, `Ciphertext.cpp`, `Wallet.cpp` | completeness and binding of Merkle proofs, random access in counter mode, the wallet's spend order over all runs |

Conventions. GMP's `PowerMod`, `MulMod`, `InvMod`, shifts and bit tests are their
mathematical definitions on unbounded integers; `Product(bs, es, m)` is the modular
product of powers with exponents of either sign and `Plain(bs, es)` the integer one.
AES and the digest function are arbitrary functions. Randomness, `ProbPrime`,
`isProbablePrime` and `iunit` are arbitrary answers; of `iunit` only what its flag
says is used. A C++ exception is an error value, and a case that the language leaves
undefined is `Undefined`.

Where the code differs from its documentation, the model follows the code:

- `isqrt` states its postcondition for every n >= 0. It fails on some n above 2^1024
  (`IsqrtLimit.IsqrtFails`), because the inner call may be one too large and C++
  division truncates toward zero; `IsqrtLimit.IsqrtMeetsIff` and `IsqrtLimit.OneLevelMeetsIff`
  say when it holds.
- A descent for p = 2 does not give two squares (`FourSquares.Descend`); the callers
  handle 2 through their table of special cases.
- A random access in counter mode agrees with the sequential key stream only below
  byte 16 * 2^32: the block number is added in 32 bits without a carry, the
  increment carries into all 128 bits (`Ciphertext.CountingMeets`).
- `x := a * b` with exponents computes the product modulo the group's modulus, not
  over the integers (`DescribeRelations.ExponentProductReduced`).
- A range is written `low <= x < high` (`src/ZKP/Translator.h:27`), but its relations
  also hold for x = high, and with low > high for the values between high and low
  (`RangeProofs.RangeSound`).
- Tables of powers are kept under names alone. Two descriptions over the same names in
  groups with different moduli leave a table that the assertion on the modulus rejects
  for one of them (`Environment.Environment.MultisFitIff`).
- Two ranges with the same product of distances overwrite each other's decomposition,
  which is kept under the product's text (`RangeTables.SurvivesIff`); the prover then
  misses a value, and no such program can be proved (`Ranges.Prove`, `Ranges.HonestRanges`).
- A power table is made for 2048 bits, but its 410 rows of 5 bits serve exponents of 2050,
  and the exponent's size is not tested: a longer one reads outside the table
  (`PowerCache.TablePow`, `Environment.Environment.PowerFitsIff`).
- `checkProof` compares neither the path with the challenge nor the length of the
  proof with the height; the binding theorem is about the position that the path bits
  encode.

## Model

| member | source | states |
|---|---|---|
| TwoSquares.DescentStart | src/FourSquares.cpp:439-454 | when p divides root^2 + 1 the pair (p, root) starts the cofactor invariant of the Euclidean descent, for p prime or not |
| TwoSquares.DescentStep | src/FourSquares.cpp:439-454 | while b^2 > p a division step keeps the invariant, so no remainder is 0 and nothing is divided by zero |
| TwoSquares.DescentEnd | src/FourSquares.cpp:439-454 | at the first b with b^2 <= p the remainder is the cofactor's absolute value and its square and b^2 add up to p |
| TwoSquares.DescentResult | src/FourSquares.cpp:439-454 | the squares of the last two remainders add up to p if and only if p is not 2 |
| IntegerSqrt.IsqrtIterate | src/FourSquares.cpp:374-385 | the loop that doubles the precision computes the specified approximation |
| IntegerSqrt.IteratedWithinOne | src/FourSquares.cpp:374-385 | the approximation after the last step is the floor of the root or that plus one, for n of any size |
| IntegerSqrt.IsqrtInternal | src/FourSquares.cpp:368-395 | the code computes the specified root and remainder on all three branches |
| IntegerSqrt.InternalIdentity | src/FourSquares.cpp:368-395 | root squared plus remainder is n for every n, however deep the recursion and whatever the sign of the inner remainder |
| IntegerSqrt.IsqrtIdentity | src/FourSquares.cpp:402-412 | after the correction, too, root squared plus remainder is n for every n |
| IntegerSqrt.ISqrt | src/FourSquares.cpp:402-412 | the correction of a negative remainder gives the specified result |
| IntegerSqrt.IsqrtExact | src/FourSquares.cpp:402-412 | for every n up to 2^1024 the result is the floor of the root, with n minus its square |
| IntegerSqrt.ExactWhenWithinOne | src/FourSquares.cpp:402-412 | above INT_MAX the postcondition holds if and only if the internal root is at most one too large |
| IntegerSqrt.IsqrtExactAbove | src/FourSquares.cpp:386-412 | above 2^1024 the postcondition holds whenever the inner remainder is not negative |
| IsqrtLimit.ExtendLacking | src/FourSquares.cpp:386-395 | with a negative inner remainder and truncating division, the next digit is at most one too large if and only if what the division leaves covers the next square |
| IsqrtLimit.IsqrtMeetsIff | src/FourSquares.cpp:386-412 | above 2^1024, exactly when the postcondition holds, in terms of the inner call's result and the two low digits of n |
| IsqrtLimit.OneLevelMeetsIff | src/FourSquares.cpp:368-412 | where the recursion is entered once, the postcondition holds if and only if the last approximation is closer to the root of the high part than that part is to the next square, or the two low digits cover what that root plus one takes away |
| IsqrtLimit.IsqrtFails | src/FourSquares.cpp:386-412 | a number of 1793 bits for which isqrt misses its postcondition |
| FourSquares.Descend | src/FourSquares.cpp:444-453 | the loop ends with two non-negative numbers whose squares add up to p if and only if p is not 2 |
| FourSquares.DecomposePrime | src/FourSquares.cpp:439-456 | succeeds if and only if the oracle gives a square root of p or one of -1 modulo p, whether p is prime or not, and then the pair squares up to p |
| FourSquares.GetLowestSetBit | src/FourSquares.cpp:580-588 | the position of the lowest bit that is 1 |
| FourSquares.SearchTwicePrime | src/FourSquares.cpp:525-552 | the search for n = x^2 + 2p stays on n and ends at the largest odd x whose square leaves twice an accepted number, with two more squares for the rest; it fails if and only if there is none |
| FourSquares.SearchPrime | src/FourSquares.cpp:553-577 | so for n = x^2 + p and the x of the other parity than n |
| FourSquares.ThreeSquares | src/FourSquares.cpp:515-578 | three squares for n if and only if n is in the table of special cases or a search for it finds an accepted number; the one found is that of the largest x |
| FourSquares.SubtractSquare | src/FourSquares.cpp:497-512 | for n = 7 mod 8 the number left after subtracting a square is neither 0 mod 4 nor 7 mod 8, and it is the second number that isqrt is asked |
| FourSquares.PowerOfFour | src/FourSquares.cpp:478-486 | shifting by twice half the lowest set bit takes out exactly the factors of four, and leaves the number that isqrt is asked first |
| FourSquares.Decompose | src/FourSquares.cpp:471-578 | for every n on which isqrt is right about the one or two numbers it is asked, and any answers of the primality tests: four non-negative numbers whose squares add up to n, or zeros. It succeeds if and only if n is 0 or 1, or what is left of n without its factors of four is a square, or 1 mod 4 and accepted itself, or a search from it, or from what a square leaves of it when it is 7 mod 8, finds an accepted number |
| FourSquares.RootsMeetBelow | src/FourSquares.cpp:471-513 | isqrt is right about both numbers for every n up to 2^1024 |
| FourSquares.FourSquares.CachedDecompose | src/FourSquares.cpp:458-469 | the same with the cache, success included, over any sequence of calls; a number of any size that was decomposed before gets its earlier result |
| Primes.SmallFactor | src/NTL/ZZ.cpp:369-394 | a composite number has a prime factor up to its root, which bounds the strikers of the sieve |
| Primes.Fermat | src/NTL/ZZ.cpp:85-110 | x^(p-1) = 1 modulo a prime p that does not divide x |
| MillerRabin.MillerWitness | src/NTL/ZZ.cpp:85-110 | answers 0 if and only if x is 0 or n is a strong probable prime to base x, and for an x other than 0 only if n passes Fermat's test for it |
| MillerRabin.PassesFermat | src/NTL/ZZ.cpp:85-110 | a strong probable prime to base x divides x^(n-1) - 1 |
| MillerRabin.PrimePasses | src/NTL/ZZ.cpp:85-110 | every odd prime passes for every base that it does not divide |
| MillerRabin.WitnessProvesComposite | src/NTL/ZZ.cpp:85-110 | a base from 1 to n - 1 that does not pass proves n composite |
| Sieve.PrimeIffNotStruck | src/NTL/ZZ.cpp:369-394 | an odd number is prime if and only if no odd prime below the bound strikes it |
| PrimeSequence.Start | src/NTL/ZZ.cpp:369-394 | an entry of the low sieve is set if and only if its number is prime, with every index in bounds |
| PrimeSequence.SieveWindow | src/NTL/ZZ.cpp:313-367 | so for every later window up to the square of the low sieve's largest number |
| PrimeSequence.PrimeSeq.constructor | src/NTL/ZZ.cpp:262-269 | all primes up to (2B+1)^2 are pending |
| PrimeSequence.PrimeSeq.Shift | src/NTL/ZZ.cpp:313-367 | places the window with a correct sieve, reusing the low sieve |
| PrimeSequence.PrimeSeq.Next | src/NTL/ZZ.cpp:277-311 | delivers the least pending prime and takes it off, or 0 when none is left |
| PrimeSequence.PrimeSeq.Reset | src/NTL/ZZ.cpp:396-412 | exactly the primes from max(b, 2) up to (2B+1)^2 are pending afterwards |
| PrimeSequence.SurvivesDivision | src/NTL/ZZ.cpp:463-475 | the remainder tests pass if and only if p divides neither n nor 2n + 1 |
| PrimeSequence.GermainSieve | src/NTL/ZZ.cpp:457-480 | n passes if and only if no odd prime of the sequence below prime_bnd divides n or 2n + 1 |
| ModExp.ProductIsPlain | src/MultiExp.cpp:183-186 | for non-negative exponents the loop's modular product is the integer product reduced |
| MultiExp.Precompute | src/MultiExp.cpp:60-82 | entry S of the hand-written table is the product of the bases in S |
| MultiExp.MultiExpCacher.Table | src/MultiExp.cpp:48-90 | a cached table is a right one, and a hit returns what was stored |
| MultiExp.OneBit | src/MultiExp.cpp:98-109 | squaring and multiplying with the column's entry takes one more bit of every exponent into account |
| MultiExp.MultiExpCacher.Exp | src/MultiExp.cpp:41-111 | the product of the powers modulo m, after any earlier calls |
| MultiExp.MultiExpCacher.Call | src/MultiExp.cpp:133-201 | every path returns the modular product of the powers, for exponents of either sign, or the size error |
| MultiExpCache.Precomp | src/ZKP/MultiExpCache.h:30-81 | entry i of a row is the product of the bases to the digits of i, shifted by the row |
| MultiExpCache.OneWindow | src/ZKP/MultiExpCache.h:90-101 | one table entry takes one window of every exponent into account |
| MultiExpCache.Exponentiate | src/ZKP/MultiExpCache.h:83-148 | the product of the powers, with every row and column index in bounds in 16 bits, if and only if the assertions on sizes, modulus and rows hold; otherwise one of them fails |
| MultiExpCache.Cache.Store | src/ZKP/MultiExpCache.h:163-175 | a table for the names is computed once and then never changes, even for other bases |
| MultiExpCache.Cache.ModPow | src/ZKP/MultiExpCache.h:180-203 | for two to four names the product of powers of the bases stored first or a failed assertion, for other sizes what MultiExp gives for the bases passed |
| PowerCache.Build | src/ZKP/PowerCache.h:23-45 | entry j of row i is base^(j * 2^(k*i)) |
| PowerCache.TablePow | src/ZKP/PowerCache.h:47-67 | base^n exactly for the n whose bits the rows cover, k * (bits / k + 1) of them; for every longer n a row outside the table is read |
| PowerCache.DeclaredBitsCovered | src/ZKP/PowerCache.h:23-45 | so every n of at most `bits` bits is served |
| PowerCache.Cache.Store | src/ZKP/PowerCache.h:23-45 | a later table for the same name replaces the earlier one |
| PowerCache.Cache.ModPow | src/ZKP/PowerCache.h:69-79 | the power of the base that was stored last for the name; a failed assertion for another modulus; an access outside the table for an exponent that is too long |
| Environment.Environment.ModPow | src/ZKP/Environment.cpp:96-109 | PowerMod for a negative exponent or without a table, and otherwise what the table gives, failures included |
| Environment.Environment.MultiExp | src/ZKP/Environment.cpp:111-129 | what the tables give where there is one and no exponent is negative, failures included, and otherwise the product of powers or the size error |
| Environment.Environment.CachePowers | src/ZKP/Interpreter.cpp:131-164 | exactly the lists of one to four bases that have values get tables; a power table has the modulus of the last description over its name, a table for several names that of the first |
| Environment.Environment.PowerFitsIff | src/ZKP/PowerCache.h:47-79 | after that, a power with the name's value is computed right if and only if there is no table, or its modulus is the one asked for and the exponent has at most 2050 bits; otherwise the assertion on the modulus fails or a row outside the table is read |
| Environment.Environment.PowersFitIff | src/ZKP/Interpreter.cpp:131-164 | powers for all descriptions over one name are computed right if and only if there are none, or they have the same modulus and the exponent has at most 2050 bits |
| Environment.Environment.MultiFitsIff | src/ZKP/MultiExpCache.h:83-148 | likewise a product of powers of two to four names with exponents that are not negative: of at most 2048 bits, 2049 for three names, where the rows are asserted to be enough |
| Environment.Environment.MultisFitIff | src/ZKP/Interpreter.cpp:131-164 | products for all descriptions over the same names are computed right if and only if there are none, or they have the same modulus and no exponent is too long |
| Environment.Environment.ProductIs | src/ZKP/Environment.cpp:111-129 | with the modulus of the table, a product is computed right if and only if there is no table, an exponent is negative or all are short enough; otherwise an assertion fails |
| Environment.WidthFits | src/ZKP/Interpreter.cpp:151-160 | the chosen widths keep column indices in 16 bits and cover the longest exponent |
| Group.ProductCombine | src/ZKP/EqualityVerifier.cpp:15-57 | the product for exponents es + c*fs is that for es times the c-th power of that for fs, for integers of either sign |
| Sigma.TablesFit | src/ZKP/Interpreter.cpp:131-164 | with tables made at compile time, exactly the products of descriptions with short exponents are computed, and they are right, when descriptions over the same bases agree on the modulus and the bound values are still those of the bases |
| Sigma.MakeRandomizedExponents | src/ZKP/InterpreterProver.cpp:122-154 | one random value for each exponent name, shared by all descriptions |
| Sigma.EqualityProver.ComputeCommitments | src/ZKP/EqualityProver.cpp:6-40 | what Environment::multiExp and its tables give for the right-hand side of every description, for the openings or the random exponents; it fails exactly when one of them does |
| Sigma.EqualityProver.Respond | src/ZKP/EqualityProver.cpp:42-50 | r + c*x for every random exponent |
| Sigma.EqualityVerifier.Verify | src/ZKP/EqualityVerifier.cpp:15-57 | accepts if and only if every value is there and what Environment::multiExp and its tables give is the left-hand side of every description's equation |
| Sigma.PassesIff | src/ZKP/EqualityVerifier.cpp:15-57 | with such tables that is so if and only if all equations hold and all right-hand sides are computed |
| Sigma.HonestEquation | src/ZKP/EqualityVerifier.cpp:15-57 | an honest response satisfies the equation of an opened description |
| Sigma.HonestRun | src/ZKP/EqualityProver.cpp:6-50 | completeness: with both sides' tables filled at compile time, a run on opened descriptions is accepted for exactly those random exponents and challenges for which the exponents on both sides are short enough where a table is used |
| Sigma.NothingBound | src/ZKP/Interpreter.cpp:131-164 | without values at compile time there are no tables, and so no run is rejected |
| Sigma.ExtractedOpens | src/ZKP/EqualityVerifier.cpp:15-57 | two accepted responses after one first message, with a difference of challenges that is invertible modulo the order, give one assignment that opens all descriptions at once |
| Sigma.SpecialSoundness | src/ZKP/EqualityVerifier.cpp:15-57 | so in groups of prime order for any two challenges that differ modulo the order: the exponents extracted with the inverse of their difference open everything |
| Ast.DenIsEval | src/ZKP/ASTNode.cpp:118-239 | without loops, the meaning is the type and the value that the code computes, and there is none exactly when the code has none |
| Evaluation.DifferenceUndoesSum | src/ZKP/ASTNode.cpp:118-161 | a difference undoes a sum, up to the modulus of the sum's type |
| Evaluation.QuotientUndoesProduct | src/ZKP/ASTNode.cpp:163-222 | a quotient undoes a product: over the integers for every divisor but 0, for exponents modulo the order and for elements modulo the modulus when the divisor is invertible; there is none for exponents of a group whose order is unknown |
| Evaluation.PowersMultiply | src/ZKP/ASTNode.cpp:118-270 | powers of one base multiply by adding their exponents, with the same type and the same value modulo that type's modulus, for negative exponents of elements too |
| Evaluation.PowerHasValueIff | src/ZKP/ASTNode.cpp:224-270 | when a power has a value: elements have any exponents in a group with a modulus, all other bases those that a long holds, and an exponent is only raised to integers |
| ConstantFolding.ConstantSub.Visit | src/ZKP/ConstantSub.cpp:179-217 | constants are replaced everywhere in an expression, and the flag says whether a binary operator had one for an operand |
| ConstantFolding.FindsIff | src/ZKP/ConstantSub.cpp:190-217 | the flag is set if and only if an operand of some binary operator in the expression is a constant |
| ConstantFolding.ConstantSub.ApplyStmt | src/ZKP/ConstantSub.cpp:74-178 | a statement's places are substituted and a constant that it defines is learned |
| ConstantFolding.ConstantSub.Apply | src/ZKP/ConstantSub.cpp:3-217 | one pass over a program: its result, its constants and its flag |
| ConstantFolding.PassIds | src/ZKP/ConstantSub.cpp:162-217 | a pass that sets the flag leaves strictly fewer identifiers and no pass adds any |
| ConstantFolding.SubMeaning | src/ZKP/ConstantSub.cpp:179-217 | substitution preserves the meaning of an expression in every environment that has the constants, under loops too |
| ConstantFolding.ConstantProp.Visit | src/ZKP/ConstantProp.cpp:70-100 | folding replaces arithmetic on literals by its value |
| ConstantFolding.PropVisitIff | src/ZKP/ConstantProp.cpp:70-100 | it fails if and only if there is a loop in one of the expression's parts |
| ConstantFolding.PropMeaning | src/ZKP/ConstantProp.cpp:70-100 | folding preserves meaning in every environment |
| ConstantFolding.PropSlotIff | src/ZKP/ConstantProp.cpp:3-28 | folding succeeds if and only if there is no loop in the expression, and leaves none |
| ConstantFolding.PropReduces | src/ZKP/ConstantProp.cpp:3-100 | and computes all that it can: no sum, difference, product or negation of numbers is left |
| ConstantFolding.ConstantProp.Apply | src/ZKP/ConstantProp.cpp:30-68 | one folding pass over a program, which fails if and only if one of its statements fails |
| ConstantFolding.PassGrows | src/ZKP/ConstantSub.cpp:162-178 | over a pass the constants only grow, by declared names, and declarations stay |
| ConstantFolding.ExprsDetermine | src/ZKP/ConstantSub.cpp:74-178 | the places that passes over a statement are about are all of its expressions |
| ConstantFolding.PassSame | src/ZKP/ConstantSub.cpp:3-217 | a pass preserves the meaning of every statement of a single-assignment program, learned constants included |
| ConstantFolding.PassTeaches | src/ZKP/ConstantSub.cpp:162-178 | a declared name becomes a constant exactly when its expression becomes a number, and then with that value |
| ConstantFolding.QuietPass | src/ZKP/ConstantSub.cpp:3-217 | after a pass without a new constant none is left to substitute |
| ConstantFolding.Check | src/ZKP/Interpreter.cpp:63-71 | the loop ends; it succeeds if and only if the folded places have no loop; the result means the same, has no constant left to substitute and nothing left to compute in the folded places; the constants are the inputs and exactly the declared names whose expressions have become numbers |
| ConstantFolding.CompiledMeaning | src/ZKP/Interpreter.cpp:63-71 | an expression with a meaning, substituted and folded, expands if and only if the bounds of its loops are indices in scope, numbers or arithmetic on numbers, and then evaluates to its meaning |
| ForExpander.LiftAssociates | src/ZKP/ASTNode.cpp:118-182 | sums and products of values with types and moduli are associative, undefined cases included |
| ForExpander.LiftCommutes | src/ZKP/ASTNode.cpp:118-182 | and commutative |
| ForExpander.FoldRotates | src/ZKP/ForExpander.cpp:47-58 | joining the first two items and moving the result to the end keeps the fold |
| ForExpander.QueueTreeMeaning | src/ZKP/ForExpander.cpp:47-58 | the queue's tree has the value of the left-to-right fold although operands are joined in another order |
| ForExpander.BoundMeaning | src/ZKP/ForExpander.cpp:5-28 | a bound that is found is the bound's meaning, when that fits an int |
| ForExpander.BoundIff | src/ZKP/ForExpander.cpp:5-28 | of bounds with a meaning that fits an int exactly the indices in scope, the numbers and the sums, differences and products of numbers are found |
| ForExpander.ExpandedMeaning | src/ZKP/ForExpander.cpp:30-62 | expansion preserves meaning and leaves no loop, nested loops and subscripts included |
| ForExpander.ExpandsIff | src/ZKP/ForExpander.cpp:30-62 | an expression with a meaning expands if and only if the bounds of all its loops have such a form, the bodies' included |
| ForExpander.RangesIff | src/ZKP/ForExpander.cpp:30-37 | a loop runs through exactly the bounds for which the counter and the number of values are ints |
| ForExpander.LinesMeaning | src/ZKP/ForExpander.cpp:118-139 | an expanded list of relations holds if and only if every line did, although expanded relations move to the end |
| ForExpander.LinesExpandIff | src/ZKP/ForExpander.cpp:118-139 | a list whose lines have meanings expands if and only if all bounds in it have the right form, and only equations are loops as a whole |
| ForExpander.LinesInOrder | src/ZKP/ForExpander.cpp:118-139 | single relations keep their order, and those of loops follow in theirs, each exactly once |
| ForExpander.RelationsInOrder | src/ZKP/ForExpander.cpp:64-74 | relation k of a loop is the body for value k of its index |
| ForExpander.ExpandedShape | src/ZKP/ForExpander.cpp:64-116 | expansion keeps a relation's kind, group and strictness, and puts indices into all its names |
| ForExpander.ForExpander.Visit | src/ZKP/ForExpander.cpp:76-116 | the mutable index map gives the rewriting that its loops in scope specify, whatever other loops left in it |
| ForExpander.ForExpander.ReplaceFor | src/ZKP/ForExpander.cpp:30-62 | a loop is replaced as specified, errors included |
| ForExpander.ForExpander.JoinQueue | src/ZKP/ForExpander.cpp:47-60 | the loop that pops two and pushes one ends with the specified tree, or the error for other operations |
| ForExpander.ForExpander.ReplaceForRel | src/ZKP/ForExpander.cpp:64-74 | one relation for each value of the index |
| ForExpander.ForExpander.ApplyListRelation | src/ZKP/ForExpander.cpp:118-139 | the list's single relations followed by those of its loops, or an error |
| DescribeRelations.SplitExprHelper | src/ZKP/DescribeRelations.cpp:137-160 | appends exactly the factors of a product to the two vectors |
| DescribeRelations.SplitExpr | src/ZKP/DescribeRelations.cpp:102-135 | the factors of a power or a product |
| DescribeRelations.CommitmentFactors | src/ZKP/DescribeRelations.cpp:137-160 | of a commitment g^x * h^r the randomness and its base come first |
| DescribeRelations.SplitMeaning | src/ZKP/DescribeRelations.cpp:102-160 | the factors of an expression that has a value evaluate and their product is congruent to it |
| DescribeRelations.ComputeValue | src/ZKP/DLRepresentation.cpp:39-54 | through Environment::modPow for one base and Environment::multiExp for more, the multi-exponentiation of the factors' values |
| DescribeRelations.ValueIsEval | src/ZKP/DLRepresentation.cpp:39-54 | it is the value of recursive evaluation reduced by the group's modulus |
| DescribeRelations.DescriptionIsEquation | src/ZKP/DescribeRelations.cpp:102-160 | a description says the same as the equation that it was made from |
| DescribeRelations.ComputationVisitor.ApplyDeclEqual | src/ZKP/ComputationVisitor.cpp:74-92 | the declared name gets the computed value and nothing else changes |
| DescribeRelations.ComputedIsEval | src/ZKP/ComputationVisitor.cpp:74-92 | a declared value is that of evaluation if and only if it is no product or already lies below the modulus, so always for group elements |
| DescribeRelations.ExponentProductReduced | src/ZKP/ComputationVisitor.cpp:74-92 | a product of exponents 5 and 6 modulo 23 that is stored as 7 |
| Pedersen.ProductHolds | src/ZKP/Translator.cpp:26-62 | the description of a product holds of honest commitments to a, b and a*b |
| Pedersen.SquareSays | src/ZKP/Translator.cpp:64-67 | the descriptions of a square say that the commitment is one to d*d |
| Pedersen.ProductOfComs | src/ZKP/InterpreterVerifier.cpp:60-79 | a product of commitments commits to the sum of their values |
| Pedersen.RangeSays | src/ZKP/Translator.cpp:137-288 | equations of a range proof and the product check: the witness opens the commitment to x = high - b, and g^Excess * h^Blinding = 1 for two functions of the witness, Excess being (x - low)(high - x) minus the sum of the four squares |
| Translator.Translator.DescribeDLR | src/ZKP/Translator.cpp:6-24 | enters the description and its compound parts, and nothing else |
| Translator.PlaceIff | src/ZKP/DLRepresentation.cpp:34-37 | the code takes the right exponent of a commitment for the number x if and only if x comes first, or second after an exponent that nothing is committed to |
| Translator.Translator.DescribeMultiplication | src/ZKP/Translator.cpp:26-62 | enters the product's description over the factor's commitment and the second factor's own |
| Translator.ProductByPlace | src/ZKP/Translator.cpp:26-62 | by the places of a, b and x in their commitments: c_x = c_a^b * h^(r_x - b*r_a) |
| RangeProofs.DeclaredProduct | src/ZKP/Translator.cpp:26-62 | the description of x = a*b holds of honest commitments to a and x that the program declares, whichever of its two exponents each commitment names first |
| Translator.Translator.DescribeSquare | src/ZKP/Translator.cpp:64-67 | the same with one factor twice |
| Translator.Translator.DescribeOneSquare | src/ZKP/Translator.cpp:80-129 | the tables after one of the four squares |
| Translator.Translator.DescribeNonNegative | src/ZKP/Translator.cpp:69-135 | the tables and descriptions after all four squares, the last one's randomness being what is left |
| Translator.Translator.CommitmentTo | src/ZKP/Translator.cpp:157-208 | finds or makes the commitment to x; of one that is there, x's own base comes first and the other exponent is the randomness, whichever place x has; fails if and only if there is none and the group has too few generators, or it has not got two exponents |
| Translator.Translator.DescribeRange | src/ZKP/Translator.cpp:137-288 | the tables and descriptions after a range, for a committed value at either place of its commitment and for a new one |
| Interpreters.InterpreterProver.FormRandomExponents | src/ZKP/InterpreterProver.cpp:86-92 | every random name gets its random number and no other name a value, and no other value changes |
| Interpreters.InterpreterProver.EvaluateExpressions | src/ZKP/InterpreterProver.cpp:94-121 | every compound expression gets its value, in any order, and fails only if one cannot be evaluated |
| Interpreters.InterpreterProver.Decompose | src/ZKP/InterpreterProver.cpp:61-84 | every number to be decomposed gets four numbers and their squares, and no other name gets a value |
| Interpreters.InterpreterProver.ComputeCommitments | src/ZKP/InterpreterProver.cpp:106-111 | through Environment::modPow and multiExp and tables that are right, every commitment gets the value of its description; it fails only when a value is missing or a table does not fit |
| Interpreters.InterpreterProver.ComputeIntermediateValues | src/ZKP/InterpreterProver.cpp:94-121 | with tidy tables and right decompositions everything translated has its value at the end, and earlier values stay; when it succeeds, every name in an expression was given, random or of a decomposition |
| Interpreters.ComputeValue | src/ZKP/DLRepresentation.cpp:39-54 | what modPow or multiExp gives for the values of bases and exponents |
| Interpreters.ExponentIsEval | src/ZKP/InterpreterProver.cpp:94-121 | the exponents that translation makes have the value that the evaluation of expressions gives them, and none in the same cases |
| Interpreters.TablesAreRight | src/ZKP/Interpreter.cpp:131-164 | the tables of cachePowers are for the values that their names have, while these are still the same |
| Interpreters.InterpreterVerifier.ComputeIntermediateValues | src/ZKP/InterpreterVerifier.cpp:51-81 | the verifier's own commitments have the values of their descriptions; badComs is set if and only if some decomposition's squares do not multiply to its commitment |
| Interpreters.InterpreterVerifier.ComputeRangeComs | src/ZKP/InterpreterVerifier.cpp:51-58 | recomputes the range commitments from public values through Environment::modPow and multiExp, overwriting what the prover sent |
| Interpreters.InterpreterVerifier.Check | src/ZKP/InterpreterVerifier.cpp:60-79 | compares the product of the four square commitments with the commitment to the sum |
| RangeProofs.RangeComplete | src/ZKP/Translator.cpp:137-288 | all descriptions of a range hold of the prover's values for every x, every randomness and bounds in any order, once the product is decomposed |
| RangeProofs.ChecksPass | src/ZKP/InterpreterVerifier.cpp:51-81 | the verifier's commitments to x - low and high - x are the prover's, and the squares multiply to the product's commitment |
| RangeProofs.RangeSound | src/ZKP/Translator.cpp:137-288 | any witness of the equations that passes the check opens the commitment to the number OpenedTo of it, and its own exponents GExponent and HExponent relate the bases; when GExponent is 0 the number lies between the bounds |
| RangeProofs.HonestWitness | src/ZKP/InterpreterProver.cpp:94-121 | the prover's own values open the commitment to x with GExponent 0 |
| RangeTables.TranslatedContains | src/ZKP/Translator.cpp:137-288 | nothing that the proof needs is overwritten by a later entry of the same translation |
| RangeTables.SurvivesIff | src/ZKP/Translator.cpp:131-288 | all entries of a range survive the translation of a later one if and only if the two products differ |
| RangeTables.TranslatedTidy | src/ZKP/Translator.cpp:137-288 | translation keeps names, counters and dependencies apart, so that translations can follow one another |
| RangeEvaluation.TranslatedWorks | src/ZKP/Translator.cpp:137-288 | every expression and commitment that a range adds can be computed |
| RangeRun.ChecksMade | src/ZKP/InterpreterVerifier.cpp:51-81 | a verifier that finds no bad commitment has made all checks of the range proof |
| RangeTranslation.Translate | src/ZKP/Translator.cpp:137-288 | after any number of ranges, over commitments of the program's or new ones, the tables hold all of each when the products differ, each decomposition is that of the last range with its product, everything in the tables can be computed, what the program declared is unchanged, and the output is exactly the ranges' descriptions |
| RangeTranslation.SameProducts | src/ZKP/Translator.cpp:131-156 | the products of the translated ranges differ exactly when those of the program's do |
| Ranges.RangesOpen | src/ZKP/DescribeRelations.cpp:83-100 | what holds of the descriptions of every range opens the protocol's environment |
| Ranges.OpensRanges | src/ZKP/DescribeRelations.cpp:83-100 | and conversely |
| Ranges.ListEvaluable | src/ZKP/InterpreterProver.cpp:94-121 | no value is missing when the prover computes the ranges from inputs and random values |
| Ranges.Prove | src/ZKP/InterpreterProver.cpp:94-121 | every range gets all its values, with commitments to x in it, if and only if the products differ and the tables fit the prover's commitments |
| Ranges.OneReplaced | src/ZKP/InterpreterProver.cpp:94-105 | with two equal products, a number of the first range's decomposition never gets a value although an expression needs it |
| Ranges.FittingIff | src/ZKP/InterpreterProver.cpp:106-111 | the tables made for the ranges fit the prover's commitments if and only if these commitments' exponents are short enough |
| Ranges.Check | src/ZKP/InterpreterVerifier.cpp:51-81 | the verifier has every element with the prover's value, its own commitments included, and finds no bad commitment |
| Ranges.HonestRanges | src/ZKP/InterpreterVerifier.cpp:6-81 | a whole run for any number of ranges in any groups, over commitments of the program's or new ones: translation, tables from the values known at compile time, prover, verifier and protocol. For values in their ranges, all random numbers and every challenge it is accepted if and only if the products differ and no exponent that a table is used with is too long for it |
| RangeRun.RangeExtracted | src/ZKP/InterpreterVerifier.cpp:39-81 | two accepted challenges after one first message, without bad commitments: the exponents extracted from the two responses open the commitment to a number between the bounds, or relate its bases |
| Ranges.RangesExtracted | src/ZKP/InterpreterVerifier.cpp:39-81 | and so for every range of a program, with the same extracted exponents |
| Merkle.PowerOfTwoIff | src/Merkle.h:17-19 | the bit test holds if and only if the number is a power of two |
| Merkle.NextPowerOfTwoIs | src/Merkle.h:30-36 | the smallest power of two that holds x leaves, with an exact logarithm |
| Merkle.Pad | src/Merkle.cpp:45-66 | leaf i is block i, and from the last block on the hash of index i, up to a power of two |
| Merkle.MakeRoot | src/Merkle.cpp:67-84 | the descending loop computes node 0 of the array tree |
| Merkle.NodeIsRoot | src/Merkle.cpp:67-84 | each node of the array tree is the recursive Merkle root of the leaves below it |
| Merkle.TopIsRoot | src/Merkle.cpp:67-84 | the array tree's root is the Merkle root of all leaves |
| Merkle.MerkleTree.constructor | src/Merkle.cpp:92-96 | the leaves are the blocks, then hashes of their indices, at most twice as many as the blocks |
| Merkle.MerkleProver.constructor | src/MerkleProver.cpp:9-43 | the prover has the same leaves |
| Merkle.MerkleProver.ComputeSubTree | src/MerkleProver.cpp:90-96 | the memoised recursion returns the eager tree's node and keeps the memo right |
| Merkle.MerkleProver.GenerateProof | src/MerkleProver.cpp:63-88 | the leaf and the siblings on its path, with their path bits |
| Merkle.MerkleProver.GenerateProofs | src/MerkleProver.cpp:45-61 | the same for every challenge over one shared memo |
| Merkle.MerkleVerifier.CheckProof | src/MerkleVerifier.cpp:40-54 | folding in place accepts if and only if the fold of the original proof is the root |
| Merkle.MerkleVerifier.VerifyProofs | src/MerkleVerifier.cpp:29-38 | accepts if and only if every proof is accepted |
| Merkle.ProofsAccepted | src/MerkleProver.cpp:63-88 | completeness: the proof of every leaf folds to the Merkle root |
| Merkle.Exchange | src/MerkleVerifier.cpp:29-54 | the prover's proofs for any blocks and challenges are accepted by the verifier with the root of the same blocks, and the proof for a challenge starts with the block of that number |
| Merkle.FoldBinds | src/MerkleVerifier.cpp:40-54 | with an injective pair hash, what folds to the root is the node at the position of its path bits with that node's siblings |
| Merkle.AcceptedIff | src/MerkleVerifier.cpp:40-54 | a proof of the tree's height is accepted if and only if its nodes are those of the honest proof for that position |
| Merkle.BlocksBind | src/Merkle.cpp:45-84 | with an injective pair hash, two lists of equally many blocks with one root are equal |
| Ciphertext.XorTwice | src/Ciphertext.cpp:331-366 | combining twice with the same key byte gives the byte back |
| Ciphertext.XorBits | src/Ciphertext.cpp:331-366 | every bit of the combination is the sum of the two bits modulo 2 |
| Ciphertext.GetU32IsSum | src/Ciphertext.cpp:281-312 | the macro's shifts and exclusive ors read a big-endian word |
| Ciphertext.IncValue | src/Ciphertext.cpp:281-312 | the increment adds one to the 128-bit number modulo 2^128 |
| Ciphertext.IncMatchesSet | src/Ciphertext.cpp:281-329 | one increment of set(i) is set(i + 1) if and only if the 32-bit block number does not overflow |
| Ciphertext.CountingMeets | src/Ciphertext.cpp:281-329 | counting on from block b meets the counter from block 0 if and only if bits 32 to 127 of b are zero |
| Ciphertext.CounterSet | src/Ciphertext.cpp:314-329 | the counter is the initial vector plus the block number in its last word, whatever it held before |
| Ciphertext.CounterInc | src/Ciphertext.cpp:281-312 | the array is incremented in place |
| Ciphertext.Crypt | src/Ciphertext.cpp:331-366 | output byte i is input byte i combined with the key stream byte of its position, in place too, and later bytes stay |
| Ciphertext.ZerosEncrypted | src/Ciphertext.cpp:331-366 | zeros encrypt to the key stream: the bytes of aes over the blocks that count up from the initial vector and the offset's block |
| Ciphertext.EncryptTwice | src/Ciphertext.cpp:331-366 | a second application at the same offset is the identity |
| Ciphertext.RandomAccess | src/Ciphertext.cpp:331-366 | for every offset below 16 * 2^32, aligned or not, encrypting a slice at its offset is the slice of the encrypted whole |
| Ciphertext.RandomAccessBlock | src/Ciphertext.cpp:331-366 | with an injective cipher, for block b that is so if and only if bits 32 to 127 of b are zero |
| Wallet.Wallet.constructor | src/Wallet.cpp:4-32 | the order is that of one swap for each position with the random one, and so a permutation of the indices for any random positions |
| Wallet.EveryOrder | src/Wallet.cpp:4-32 | every order of the coins comes about for some random positions |
| Wallet.Wallet.NextCoinIndex | src/Wallet.cpp:42-49 | issues the first unspent index, or fails when there is none |
| Wallet.Wallet.ReplaceCoin | src/Wallet.cpp:71-87 | takes an index back if and only if it is in range and not unspent; numCoinsUsed never falls below 0 |
| Wallet.Pigeonhole | src/Wallet.cpp:71-87 | n different indices below n are all of them, so a full wallet refuses every index |
| Wallet.PermutationUnique | src/Wallet.cpp:4-32 | a permutation of the indices has no index twice |
| Wallet.RunKeeps | src/Wallet.cpp:42-87 | over every run the unspent indices are different and in range, and issued and unspent ones are the initial and the returned ones |
| Wallet.RunWithoutReplacing | src/Wallet.cpp:42-49 | without returns the indices are issued in order, each once, and then nothing |
| Wallet.FreshIssuesAll | src/Wallet.cpp:4-49 | a fresh wallet of n coins that is asked often enough issues each index exactly once |
| Wallet.IssuedTwice | src/Wallet.cpp:42-87 | an index issued twice was returned in between at least once |

## Left out

- RangeSound: gives a relation g^a * h^k = 1 with a not 0, computed from the witness, instead of a contradiction; that such a relation cannot be found is a computational assumption on the group.
- RangeExtracted: likewise; it takes two accepted runs as given and does not say how a prover is rewound, and in an RSA group it presumes a difference of challenges that is prime to the order.
- HonestRanges: leaves out a range about an expression that an earlier range commits to (Apart), where the verifier would compute one of its commitments from another in the order of the map's keys, and commitments of the program's whose exponents are not two names or in which x comes second after another committed name, of which PlaceIff says that the code takes the wrong exponent.
- TablesReady: ranges over the same two generators are in groups with the same modulus, and the program's commitments have no values when the tables are made; MultisFitIff says what happens otherwise.
- Decompose: says nothing about how likely success is; where isqrt is wrong about a number it is asked, the source may take the square root of a negative number, which is not modelled.
- IsqrtMeetsIff: speaks about the inner call's result; only for one level of recursion does OneLevelMeetsIff speak about the floor root and the last approximation instead.
- ExpandedMeaning: is about loops whose indices do not shadow each other and about bodies with a meaning; empty ranges, on which the code pops an empty queue, are Undefined.
- QueueTreeMeaning: excludes loops over the bare modulus of a group, where the order of reduction can matter.
- ConstantFolding.Check: single-assignment programs whose loop indices do not collide with input names; for other programs only success, termination and the final absence of constants are stated.
- ExponentIsEval: is not about quotients, which translation does not make; a range with a quotient in a bound has no value here.
- ConstantProp.Apply: the code folds only the bounds of name ranges and of loops over relations, and so does the model.
- ConstantSub.ApplyStmt: left-hand subscripts are not substituted, as in the code.
- Exponentiate: multiexp_2, multiexp_3 and multiexp_4 are one method over the number of bases; it requires a column index that fits 16 bits, as the widths of cachePowers give (WidthFits), and a wider one would be truncated in the source.
- MultiExpCacher.Table: the cache is keyed by the bases and the modulus instead of their SHA-1 digest.
- DescribeRelations.ComputeValue: presumes that the tables fit, which the assertions of the source demand; PowerFitsIff and MultiFitsIff say when they do.
- Verify: a missing value is an exception in the source and a failed assertion ends the program; both count as not accepting here.
- TablePow: what an access outside the table does is undefined in the source; it is a result of its own here.
- CachedDecompose: the cache is a field of an object instead of a global.
- Start: the low sieve is computed for each object instead of once for all.
- VerifyProofs: requires a first proof and non-empty proofs, which the source reads without a test.
- Names are a base and a subscript; the text of an expression is taken to determine it, so tables are keyed by expressions.
- Syntax trees are values and rewriting returns a new tree; pointers shared between trees, the parent stack and the cached types are not modelled.
- Operands that C++ may evaluate in any order are evaluated from left to right.
- mpz_invert of a number without an inverse gives 0.
- The dispatch of applyASTEqual over single relations, products and group checks, the checks of applyASTRange that a range is written with <= and < and that its group is an RSA group, privacy flags and types in the tables, and clearPrivates.
- Random and prime declarations, group declarations, how commitments in programs get into the tables, and loops over relations inside loops over relations.
- The program cache and its keys, printers, serialization, files, the lexer and parser.
- iunit beyond its flag, jacobi, nextProbablePrime, ErrBoundTest and the generation of groups and primes other than the trial division.
- Digest types, 32-bit sizes of buffers, initHashChunks, generateChallenges and the other constructors of Merkle trees and provers.
- Buffers that overlap in part; input and output of Crypt are the same array or different ones.
- AES rounds, padding modes of the other ciphers, key derivation and MACs.
- Coins, blind signatures, verifiable encryption, fair exchange and the arbiter: message handling over cryptography that is abstract here.
