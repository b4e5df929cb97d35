# Policy evaluation, body binding and throttling: a verified model

This project models the parts of the repository whose correctness is hardest to see by
reading one function at a time, and proves what their code and documentation promise.

**The IAM policy evaluator** (`pkg/iampolicy`) is a small language with four layers, each of
which has a simple meaning that the code computes in a faster or less direct way.

- `Glob` says what a pattern of `*`, `?` and escapes means (`Matches`, an exponential choice;
  `CutsInto`, the same said without recursion) and proves that the greedy scan with a single
  backtrack point decides exactly that, in fewer than (|value|+1)·(|pattern|+1) turns.
- `Variables` reads a string with `${...}` references as a template, gives the template a
  meaning in which text keeps its wildcards and a substituted value is a run of literal bytes,
  and proves that the one-pass expander, read back with escapes, spells exactly that meaning.
- `Arn` proves that the ARN scanner and the variable scanner cut a pattern at the same places.
- `Numbers` gives exact decimals their real value and proves that parsing is exact, that the
  canonical form is unique and that the lexical comparison is comparison of values.
- `Conditions` and `Evaluator` are the operators, condition blocks, statements and documents;
  every method there is proved against a predicate that says what it asks of a request.
- `Legacy` is the rewrite of documents older than policy variables.
- `PatternLaws`, `Operators` and `Decisions` say the same in a policy's own characters: what
  a string with references resolves to and matches part by part, what each condition operator
  asks by its name, and what a statement's lists, effect, Principal and conditions decide.
- `Flow` and `EvaluatorLaws` are the laws of the whole: missing information can only narrow
  access, a Deny cannot be escaped by leaving a key out, decisions do not depend on order, and
  older documents read `${` as text. The argument for missing information is one chain of four
  answers (`Flow.Chain`) that every layer keeps and every negation reverses.

**Request signing** (`pkg/sigv4`). `Payload` is the reader that checks a streamed body against
its signed digest. Its guarantees are over every sequence of reads of every framing. The
class `VerifiedBody` keeps a ghost record of what the transport handed over and is tied to the
run functions (`After`, `Answers`) by every read. `Canonical` is the canonical request: one
string whatever the order of iteration and sorting, decodable, and maskable without leaking
what the mask hides; `CanonicalLaws` spells out its order, its encoding and a small request.

**Throttling** (`pkg/ratelimit`). `RateLimit` is the double-checked insertion of any number of
callers interleaved with the evicting sweep, as atomic steps under one read-write lock, and
the `Throttler` whose sections under the lock do to the map what those steps do. `Limits` is
the key the middleware builds and the limit each call is given, and `Eviction` what a sweep may
evict, said of the calls themselves.

Strings are sequences of bytes, as in Go; a byte is a character below 256. Go's early-exit
loops over maps are loops that take the keys in any order. SHA-256 in hex is a function
parameter, and so are lower-casing, case folding and the parsing of dates, addresses and CIDR
blocks (`Conditions.Library`).

## Where the code and its promises differ

- The rewrite of older documents is meant to make `${` read as text. For resource patterns
  and the string, ARN, numeric and Null operators it does, for every string, context and
  fail-closed answer. Bool, address and date values are compared without expansion, so there
  the rewrite itself can be visible, exactly when: a Bool list holds `${` (for some request
  value, `EvaluatorLaws.BoolRewriteIsExact`), a Bool request value holds `${` (for some list,
  `BoolSeesOnlyOpen`), or the date or address parser reads some value and its rewriting
  differently (`DateRewriteIsExact`, `AddressRewriteIsExact`). `RewriteUnseen`
  puts these conditions on one value, and whole statements and decisions are covered
  wherever it holds of their values (`OlderDocumentsReadLiterally`, `DocumentsReadByVersion`).
- "Two returns for one key with no eviction between them give the same limiter" does not hold
  of the moments at which calls return: `RateLimit.SlowReturnIsStale` is a run in which a slow
  caller hands out the evicted limiter after a newer one was returned. The exact law is about
  the moments at which the two calls read or write the map under the lock: they return one
  limiter if and only if the key was not evicted between those (`RateLimit.EveryReturnIsSound`).
- A delivered body hashes to its digest for every hash and digest if and only if the transport
  hands over no bytes after the read that first reaches the declared length or end-of-file, up
  to where a sized body breaks off and is refused (`Payload.BodySafetyIsExact`). `Payload.PastLengthIsUnchecked` is a run on which later bytes
  are passed on unchecked.
- A limiter key joins account and action with `:`. Every call is given the limit configured for
  its own action if and only if no key is asked for under two actions with different limits
  (`Limits.LimitsAreExact`); under every configuration, if and only if no account id extends
  another past a colon (`Limits.AccountsAreExact`), as colon-free ids do not.
  `Limits.ColonAccountsCollide` is a run in which an account is throttled at another account's
  action's limit.

## Model

| member | source | states |
|---|---|---|
| Glob.MatchesIffCut | pkg/iampolicy/match.go:8-15 | a pattern's elements match a value exactly when the value cuts into one piece per element: any piece for `*`, one byte for `?`, the byte itself for a literal |
| Glob.PositionsAgree | pkg/iampolicy/match.go:61-73 | decoding elements at positions, as `token` does, and matching from there is matching the list of elements the rest of the pattern spells |
| Glob.RetryLeaves | pkg/iampolicy/match.go:30-31 | whatever retrying the latest `*` can match, the elements already passed after it use up one byte each and the rest matches further on: one backtrack point loses no match |
| Glob.TurnKeeps | pkg/iampolicy/match.go:34-49 | one turn of the scan keeps "the whole matches iff what is left matches or the latest `*` retried does", and giving up means no match |
| Glob.OnlyStarsFrom | pkg/iampolicy/match.go:51-58 | with the value used up, the closing loop decides whether the rest of the pattern matches nothing |
| Glob.MatchGlob | pkg/iampolicy/match.go:26-59 | the greedy scan, with or without escapes, answers whether the pattern's elements match the value, in fewer turns than (value length + 1) rows of (pattern length + 1) |
| Glob.RowsIsProduct | pkg/iampolicy/match.go:30-31 | that bound is the product |
| Glob.LiteralsMatchThemselves | pkg/iampolicy/match.go:20-22 | a pattern of literal bytes matches itself and nothing else |
| Glob.MatchWildcard | pkg/iampolicy/match.go:8-24 | both shortcuts and the scan answer the one relation, with backslash an ordinary byte |
| Glob.StarMeans | pkg/iampolicy/match.go:8-10 | plain text, `*` and plain text match what begins with the one and, after it, ends with the other |
| Glob.QuestionMeans | pkg/iampolicy/match.go:8-10 | with `?` between them they match exactly one byte more than both |
| Glob.BackslashMeans | pkg/iampolicy/match.go:61-73 | with escapes a backslash makes the next byte literal, at the very end it is a literal itself, and without escapes it is an ordinary byte |
| Variables.ParseIsInverse | pkg/iampolicy/variables.go:123-137 | the scan for references takes a string apart without loss, each text up to the first `${` and each name up to the first closing brace |
| Variables.ParseIsUnique | pkg/iampolicy/variables.go:104-110 | there is only one such reading of a string |
| Variables.WriteEscaped | pkg/iampolicy/variables.go:153-166 | appends the string with a backslash before every byte to escape, by either path |
| Variables.ExpandVariables | pkg/iampolicy/variables.go:104-151 | resolves exactly when every reference is closed and names an escape form or a present substitutable key, whether or not it escapes; the output is the template's expansion, the string itself, or nothing |
| Variables.UnescapedIsPlain | pkg/iampolicy/variables.go:116-119 | without escaping the expansion is the text with each reference replaced by its value |
| Variables.EscapedExpansionMeans | pkg/iampolicy/variables.go:96-111 | the escaped expansion, read with escapes, spells the text's wildcards and the values' literal bytes: no value can act as a wildcard, and a backslash in text stays an ordinary byte |
| Variables.NoWildcardMeansEqual | pkg/iampolicy/variables.go:108-110 | a template with no wildcard in its text matches its plain expansion and nothing else |
| Variables.MatchesOwnExpansion | pkg/iampolicy/variables.go:108-110 | a pattern always matches its own plain expansion |
| Variables.UnresolvableVariable | pkg/iampolicy/variables.go:51-72 | reports the first reference no context could resolve, and which fault it is |
| Variables.GateAgrees | pkg/iampolicy/variables.go:51-53 | a string resolves exactly when the gate finds no fault and every key it names is present; a string without fault names substitutable keys only |
| Variables.GateDecides | pkg/iampolicy/variables.go:104-106 | with every substitutable key present the expander refuses exactly what the gate reports; otherwise it refuses a string the gate passes only for an absent key |
| Patterns.MatchPattern | pkg/iampolicy/match.go:93-108 | matches the pattern's meaning when it resolves and takes `failClosed` when it does not |
| Patterns.MatchesAnyResource | pkg/iampolicy/match.go:110-119 | some pattern matches |
| Patterns.MatchesAny | pkg/iampolicy/match.go:75-91 | some pattern matches, both sides lower-cased when case is ignored |
| PatternLaws.KnownNames | pkg/iampolicy/variables.go:12-33 | the names a reference may use are `aws:username`, `aws:PrincipalAccount`, `aws:userid`, `*`, `?` and `$`, each of the last three standing for itself |
| PatternLaws.GateByParts | pkg/iampolicy/variables.go:51-72 | the gate reports nothing of text, an opening never closed with what follows it, the first unknown name, and otherwise what it reports of the rest |
| PatternLaws.ResolvesByParts | pkg/iampolicy/variables.go:104-151 | text resolves to itself, a character's name to the character and a caller's key to its value, each before what the rest resolves to; an absent key, another name or an opening never closed does not resolve |
| PatternLaws.AsksByParts | pkg/iampolicy/variables.go:104-111 | text asks for its own wildcards and a reference for its value's bytes as they are |
| PatternLaws.CharacterMeansItself | pkg/iampolicy/variables.go:31-33 | `${*}`, `${?}` and `${$}` match exactly the one byte |
| PatternLaws.HomeDirectory | pkg/iampolicy/variables.go:9 | text, `${aws:username}`, a slash and `*` match what begins with the text, the caller's very name and the slash, and take `failClosed` without a name |
| Arn.SplitARN | pkg/iampolicy/match.go:125-147 | one pass with one flag finds the first five colons outside references, or reports fewer |
| Arn.SplitRejoins | pkg/iampolicy/match.go:125-127 | the parts joined by colons are the string |
| Arn.ColonCutsTemplate | pkg/iampolicy/match.go:125-127 | the scanner's first colon cuts the expander's reading of the string in two: each side resolves by itself, and meaning and expansion are theirs around a colon |
| Arn.SplitAgreesWithExpansion | pkg/iampolicy/match.go:149-156 | a pattern resolves exactly when all its components do, and its meaning and expansion are theirs joined by colons |
| Arn.PlainSplitRejoins | pkg/iampolicy/match.go:162-165 | a request value splits into parts that rejoin, the first five without colons |
| Arn.MatchARN | pkg/iampolicy/match.go:149-175 | an unresolvable pattern or a value that is no ARN takes `failClosed`, a resolvable pattern that is no ARN matches nothing, and otherwise all six components match |
| Arn.ArnMeans | pkg/iampolicy/match.go:149-151 | on a six-part value a resolvable pattern never consults `failClosed`: each component's meaning is matched between the value's own colons |
| Arn.SubstitutedColonNeverMatches | pkg/iampolicy/match.go:149-151 | a colon substituted into one of the first five components cannot shift a boundary: such a pattern matches no ARN |
| Arn.ArnMatchIsGlobMatch | pkg/iampolicy/match.go:149-151 | component matching accepts only what matching the whole string would |
| Operators.ArnBySixParts | pkg/iampolicy/match.go:121-175 | the ARN operators, by name, match six parts between colons one by one; a pattern with fewer never matches and a value with fewer takes `failClosed` |
| Numbers.ParseNumber | pkg/iampolicy/numbers.go:21-60 | the step-by-step reader computes the number or the refusal that the next rows characterise |
| Numbers.NatIsDec | pkg/iampolicy/numbers.go:36-42 | the exponent's digits denote what digits denote |
| Numbers.DecimalIsWritten | pkg/iampolicy/numbers.go:21-23 | how a decimal is written: `-` or `+`, digits, a point and digits, `e` or `E`, a sign and digits |
| Numbers.DecimalMeans | pkg/iampolicy/numbers.go:21-50 | its value is its sign times its digits without the point times a power of ten, and it is in range when exponent and scale lie between -2147483648 and 2147483647 |
| Numbers.ParseRendered | pkg/iampolicy/numbers.go:21-23 | every written decimal is read if and only if its exponent and scale fit 32 bits, into canonical form and with its exact value |
| Numbers.ParsedIsDecimal | pkg/iampolicy/numbers.go:30-44 | nothing else is read: an accepted string is a sign, digits with an optional point and an optional exponent |
| Numbers.NumbersAreDecimals | pkg/iampolicy/numbers.go:30-50 | the strings that read as numbers are exactly the decimals in range, written out |
| Numbers.NormalizeKeeps | pkg/iampolicy/numbers.go:52-59 | trimming zeros into the exponent keeps the value and reaches the canonical form |
| Numbers.MagnitudeCompareIsExact | pkg/iampolicy/numbers.go:90-102 | leading position first and then digits in lexical order is the order of the magnitudes |
| Numbers.LexicalOrder | pkg/iampolicy/numbers.go:90-92 | without trailing zeros, digit strings at one leading position compare as the fractions they spell |
| Numbers.CompareIsExact | pkg/iampolicy/numbers.go:62-78 | the answer is -1, 0 or 1 as the exact value is below, equal to or above the other |
| Numbers.CanonicalIsUnique | pkg/iampolicy/numbers.go:13-14 | equal values have one representation |
| Numbers.SameNumberSameValue | pkg/iampolicy/numbers.go:13-14 | two strings parse to the same number if and only if they denote the same value |
| Conditions.NumericOrdersValues | pkg/iampolicy/numbers.go:128-144 | a numeric operator orders the exact values of the two decimals as written |
| Operators.NumericOperators | pkg/iampolicy/conditions.go:60-65 | each numeric operator, by name, compares the values of the two decimals as written: equal, not equal, below, at most, above, at least |
| Operators.DateOperators | pkg/iampolicy/conditions.go:54-59 | each date operator, by name, compares the two instants in the same way |
| Operators.StringOperators | pkg/iampolicy/conditions.go:40-48 | the string operators and Bool, by name, on a value without references: equal, equal up to case, matched as a pattern, and their negations |
| Operators.ResolvedOperators | pkg/iampolicy/conditions.go:253-256 | on a value whose references resolve they compare with what it resolves to, and keep as wildcards those of its text only |
| Operators.UnresolvedOperators | pkg/iampolicy/conditions.go:199-207 | on a value that does not resolve they take `failClosed`, negated or not |
| Operators.AddressOperators | pkg/iampolicy/conditions.go:274-276 | the address operators, by name: inside the block, or the same address, or `failClosed` for an unreadable request address, negated or not |
| Operators.UnreadableOperators | pkg/iampolicy/numbers.go:104-106 | an unreadable number or date in the request takes `failClosed`, negated or not |
| Operators.ValuesAreOred | pkg/iampolicy/conditions.go:164-165 | a positive operator holds of some value and a negated one of all |
| Operators.IfExistsHolds | pkg/iampolicy/conditions.go:68-70 | with `IfExists` an operator holds of an absent key and otherwise as without it |
| Operators.PlainOperatorHolds | pkg/iampolicy/conditions.go:167-169 | without it an operator holds of an absent key exactly when it is negated |
| Operators.NullOperator | pkg/iampolicy/conditions.go:242-251 | Null true asks for an absent key and Null false for a present one |
| Operators.WritePathAccepts | pkg/iampolicy/conditions.go:111-151 | which operators each of the eleven keys takes, Null on all of them, `IfExists` wherever the operator is taken and never on Null |
| Conditions.SupportedOperatorsAreRecognised | pkg/iampolicy/conditions.go:138-151 | an operator the write path accepts on a key is Null, a negated operator or one the evaluator's switch knows |
| Conditions.PositiveFormsArePositive | pkg/iampolicy/conditions.go:72-83 | negation recurses once: the positive form of a negated operator is not negated and is one the switch knows |
| Conditions.EqualsAny | pkg/iampolicy/conditions.go:253-272 | some value equals the request's once expanded, or cannot be resolved and `failClosed` says yes; an unresolvable value never cuts the scan short |
| Conditions.IpInAny | pkg/iampolicy/conditions.go:274-304 | an address inside some CIDR block or equal to some address; an unreadable request address takes `failClosed`, an unreadable value matches nothing |
| Conditions.DateHoldsAny | pkg/iampolicy/dates.go:76-98 | some date stands in the operator's order to the request's; unreadable ones as for addresses |
| Conditions.NumericHoldsAny | pkg/iampolicy/numbers.go:104-126 | some number stands in the operator's order to the request's; unreadable ones as for addresses |
| Conditions.ConditionHolds | pkg/iampolicy/conditions.go:196-240 | a negated operator is the complement of its positive form asked with the opposite fail-closed answer; an unknown operator never holds |
| Conditions.NullHolds | pkg/iampolicy/conditions.go:242-251 | some value says true of an absent key or false of a present one |
| Conditions.CheckConditions | pkg/iampolicy/conditions.go:164-194 | every key of every block holds, whatever order the maps are walked in |
| Legacy.LiteralCancels | pkg/iampolicy/variables.go:168-170 | the rewritten string resolves in every context to the original string, and means what the original means without variables |
| Legacy.LiteralStringReads | pkg/iampolicy/variables.go:172-174 | expanding the rewritten string gives back the original, and matching it is wildcard matching of the original, for either fail-closed answer |
| Legacy.LiteralSplits | pkg/iampolicy/variables.go:172-174 | splitting the rewritten pattern is the plain colon split of the original with each part rewritten |
| Legacy.CopyWithLiteralVariables | pkg/iampolicy/variables.go:210-237 | the copied statement has every resource pattern and condition value rewritten and nothing else changed |
| Legacy.HasVariablePrefix | pkg/iampolicy/variables.go:192-208 | some resource pattern or condition value holds `${` |
| Legacy.LiteralVariableStatements | pkg/iampolicy/variables.go:172-190 | every statement comes back rewritten, in the caller's slice only when nothing needed rewriting and in a fresh copy otherwise; the caller's slice is never written |
| Evaluator.MatchesAction | pkg/iampolicy/evaluator.go:99-105 | Action, or the complement of NotAction, ignoring case |
| Evaluator.MatchesResource | pkg/iampolicy/evaluator.go:107-115 | Resource, or the complement of NotResource asked with the opposite fail-closed answer |
| Evaluator.FindUnenforceable | pkg/iampolicy/evaluator.go:128-151 | finds something exactly when a selector pair is malformed, a Principal is present or some condition is unsupported |
| Evaluator.MatchesStatement | pkg/iampolicy/evaluator.go:70-97 | the statement selects the request, with an unenforceable Allow selecting nothing and an unenforceable Deny ignoring its conditions and malformed halves |
| Evaluator.EvaluateWithKeys | pkg/iampolicy/evaluator.go:18-68 | Allow exactly when some selecting statement allows and none has another effect, over all documents, older ones rewritten, with the loops' early exit |
| Evaluator.DeniedForGood | pkg/iampolicy/evaluator.go:21 | documents read later cannot lift an explicit deny |
| Decisions.StatementDecides | pkg/iampolicy/evaluator.go:18-37 | an enforceable Allow by itself decides Allow, and any other effect denies what other statements allow, exactly when its Action or NotAction list, its Resource or NotResource list and all its conditions say so |
| Decisions.FourSelectors | pkg/iampolicy/evaluator.go:99-115 | Action, NotAction, Resource and NotResource as Allow and as Deny, in terms of the lists and matching: a complement selects what no pattern of it matches, actions ignore case and resources do not, and an unresolved pattern makes an Allow select less and a Deny more |
| Decisions.UnenforceableDecides | pkg/iampolicy/evaluator.go:79-92 | a malformed pair, a Principal or an unsupported condition: an Allow then never allows, and any other effect denies what its well-formed lists select, its conditions aside |
| Decisions.HomeDocument | pkg/iampolicy/evaluator.go:36-43 | one document allowing `home/${aws:username}/*`: in version 2012-10-17 it allows the caller's own home, in any other that very text |
| Flow.PatternChain | pkg/iampolicy/match.go:93-97 | one pattern under less and more context, failing open and closed, answers in one order of implication |
| Flow.ArnChain | pkg/iampolicy/match.go:149-151 | the same for ARN patterns, through all six components |
| Flow.OperatorChain | pkg/iampolicy/conditions.go:203-207 | the same for every operator: negation reverses the chain and flips the fail-closed answer |
| Flow.ConditionsChain | pkg/iampolicy/conditions.go:164-169 | the same for whole condition blocks when no condition is on a key only one context has |
| Flow.OmissionKeepsConditions | pkg/iampolicy/conditions.go:167-169 | conditions that hold keep holding when a key is left out that they constrain only through operators holding on absent keys |
| EvaluatorLaws.StatementFlow | pkg/iampolicy/evaluator.go:34-36 | more context can only make an Allow select and a Deny stop selecting, through resources, NotResource, negation and the unenforceable branch |
| EvaluatorLaws.MoreContextNeverNarrows | pkg/iampolicy/evaluator.go:34-36 | what is allowed stays allowed with any further keys that no statement puts a condition on: missing information only narrows access |
| EvaluatorLaws.OmissionCannotEscapeDeny | pkg/iampolicy/conditions.go:167-169 | leaving out keys cannot stop a Deny that constrains them only through negated or IfExists operators, even where its resources or values name them as variables |
| EvaluatorLaws.FailClosedOrder | pkg/iampolicy/evaluator.go:74-77 | what a body selects as an Allow it selects under every other effect |
| EvaluatorLaws.UnenforceableDenyCoversRepairs | pkg/iampolicy/evaluator.go:87-91 | an unenforceable Deny selects whatever any repair of it would, with one selector kept of a malformed pair, the Principal dropped and any conditions |
| EvaluatorLaws.SameStatementsSameDecision | pkg/iampolicy/evaluator.go:18-23 | the outcome depends only on which statements there are |
| EvaluatorLaws.OrderDoesNotMatter | pkg/iampolicy/evaluator.go:18-23 | documents in another order, each with its statements in another order, decide alike |
| EvaluatorLaws.OutcomesCombine | pkg/iampolicy/evaluator.go:18-23 | the outcome of more statements combines their outcomes: deny over allow over silence |
| EvaluatorLaws.LiteralArnReads | pkg/iampolicy/variables.go:172-174 | an ARN operator on a rewritten value is component matching of the original, as written |
| EvaluatorLaws.LiteralEqualsReads | pkg/iampolicy/variables.go:172-174 | a string comparison with a rewritten value is comparison with the original |
| EvaluatorLaws.NumberRewriteInvisible | pkg/iampolicy/variables.go:172-174 | a rewritten value reads as the same number, or neither reads as one |
| EvaluatorLaws.OlderDocumentsReadLiterally | pkg/iampolicy/evaluator.go:36-37 | a rewritten statement selects exactly what the original selects with every `${` read as text, unless it is enforceable and a value with `${` meets a Bool request value with `${`, or an address or date parser that reads it and its rewriting differently |
| EvaluatorLaws.DocumentsReadByVersion | pkg/iampolicy/evaluator.go:36-43 | over documents of any versions the decision is Allow exactly when some Allow statement selects the request and no other does, `${` meaning a reference in 2012 documents and text in older ones, under the same condition |
| EvaluatorLaws.BoolRewriteIsExact | pkg/iampolicy/conditions.go:220-225 | a Bool condition of an older document reads its values as written for every request value if and only if none holds `${` |
| EvaluatorLaws.BoolSeesOnlyOpen | pkg/iampolicy/conditions.go:220-225 | it reads all values as written for a given request value if and only if that one holds no `${` |
| EvaluatorLaws.DateRewriteIsExact | pkg/iampolicy/dates.go:76-98 | date conditions of older documents read all values as written for every request if and only if the parser reads every value and its rewriting alike |
| EvaluatorLaws.DatesWithoutDollar | pkg/iampolicy/dates.go:35-55 | which a date parser that accepts no `$` does |
| EvaluatorLaws.AddressRewriteIsExact | pkg/iampolicy/conditions.go:274-304 | address conditions likewise, if and only if the address parser reads every value and its rewriting alike, CIDR blocks holding no `${` |
| Payload.VerifiedBody.Read | pkg/sigv4/payload.go:108-143 | each read gives the run's next answer and keeps the fields those of the run; after a refusal the transport is not read and the buffer not written |
| Payload.RunTracks | pkg/sigv4/payload.go:113-142 | on every run, whatever the transport does: no read has been refused if and only if the body did not break off and what was handed over when its end came in sight hashes to the digest; and then the answers are what the transport handed over, all of it hashed, verified exactly when the end is in sight |
| Payload.VerdictByReads | pkg/sigv4/payload.go:119-140 | a run is refused if and only if some read fails with bytes still owed, or the first read to reach the declared length or end-of-file finds that all that came does not hash to the digest |
| Payload.RefusalIsSticky | pkg/sigv4/payload.go:130-136 | after a refusal every later read is answered with no bytes and the mismatch |
| Payload.Delivery | pkg/sigv4/payload.go:108-143 | every run delivers the transport's chunks up to the first read that does not pass and nothing but mismatches from there; without one that point is the end |
| Payload.DeliveredIsVerified | pkg/sigv4/payload.go:93-97 | over all runs the bytes delivered are a prefix of the transport's; and if it hands over none after the read that brings the end in sight they hash to the signed digest once the declared length was delivered or end-of-file answered |
| Payload.BodySafetyIsExact | pkg/sigv4/payload.go:93-143 | a run is safe in that sense for every hash and digest if and only if, up to where it breaks off, it hands over no bytes after the read that first reaches the declared length or end-of-file |
| Payload.CrossingReadIsChecked | pkg/sigv4/payload.go:114-129 | a read that crosses the declared length is hashed whole and passed on if and only if all of it hashes to the digest |
| Payload.CompleteRunVerdict | pkg/sigv4/payload.go:93-97 | on any framing of a body every read is passed through unchanged if and only if the body hashes to the digest or its end has not been reached |
| Payload.ShortBodyIsRefused | pkg/sigv4/payload.go:119-126 | a sized body that fails before its declared length is refused, whatever the error says and whatever came before |
| Payload.PastLengthIsUnchecked | pkg/sigv4/payload.go:128-140 | a concrete run with a read past the declared length, whose delivered bytes do not hash to the digest |
| Payload.ReadFull | pkg/sigv4/payload.go:59-60 | reads until the buffer is full or the transport ends, with the error that io.ReadFull gives and what is left in the transport |
| Payload.FullReadOfFraming | pkg/sigv4/payload.go:59-60 | however a body is framed, a full read takes its first bytes, or all there is with end-of-file, unexpected unless there was nothing |
| Payload.FullReadConserves | pkg/sigv4/payload.go:59-60 | what a full read took and what remains in the transport are what there was |
| Payload.SignedRequest.BindPayload | pkg/sigv4/payload.go:33-91 | for every branch the verdict, the body a handler will read, what is left in the transport and whether it was closed; and in the request's own fields: a mode, another service or no request leaves the body alone; no body binds when the digest spells the empty one's, in any case; a small body of its declared length binds if and only if the digest spells its hash, and is then what the handler reads; a shorter one is a mismatch; any other body is handed to the wrapper with its digest and length |
| Payload.SmallBodyBindsExactly | pkg/sigv4/payload.go:54-80 | a small body of its declared length binds if and only if it hashes to the digest, and is then what the handler reads |
| Payload.ShortBodyNeverBinds | pkg/sigv4/payload.go:61-65 | a small body shorter than declared is a mismatch, not a read error |
| Canonical.SortedIsUnique | pkg/sigv4/verify.go:82-93 | under an order whose ties are only between identical elements there is one sorted arrangement, so stability cannot show |
| Bytes.CompareIsLexical | pkg/sigv4/verify.go:82-93 | a string compares below another exactly when it is a proper prefix of it or has the smaller byte at the first difference |
| CanonicalLaws.ArrangedAscending | pkg/sigv4/verify.go:82-109 | pairs ascend by raw key and then by raw value, and signed header names ascend |
| CanonicalLaws.ByteIsEncoded | pkg/sigv4/verify.go:98-103 | a letter, a digit, `-`, `.`, `_` or `~` stands for itself and any other byte for `%` and two upper-case hexadecimal digits |
| CanonicalLaws.SessionNames | pkg/sigv4/verify.go:99-101 | an ASCII name is the session token's when it spells `x-amz-security-token` in any case; the long s and the Kelvin sign spell its `s` and `k` |
| CanonicalLaws.SmallRequest | pkg/sigv4/verify.go:95-137 | the whole string for one query value and one signed header, line by line, with the mask `<redacted>` for the session token only |
| Canonical.CanonicalIsUnique | pkg/sigv4/verify.go:72-109 | there is one canonical request whatever the order of map iteration and of the sorts |
| Canonical.EscapeRoundTrip | pkg/sigv4/verify.go:98-103 | percent-encoding is undone by decoding |
| Canonical.EscapeHasNoSeparator | pkg/sigv4/verify.go:98-103 | no byte that separates pairs, keys or lines occurs in an encoding |
| Canonical.SplitJoin | pkg/sigv4/verify.go:133 | parts without the separator come back from their join |
| Canonical.QueryLineDecodes | pkg/sigv4/verify.go:95-104 | the query line decodes to the sorted pairs it was built from, and the redacted line to the same pairs with the session's values masked |
| Canonical.RedactedLineKeeps | pkg/sigv4/verify.go:63-71 | pair by pair the redacted query line keeps every key, and every value but the session token's, which it masks |
| Canonical.RedactedLinesUp | pkg/sigv4/verify.go:70-71 | the real and the redacted request are renderings of one arrangement of pairs and headers |
| Canonical.AlikeRenderAlike | pkg/sigv4/verify.go:63-68 | requests alike in all that is rendered have one rendering; redacted, they may differ in values under names folding to the session token, as many for each key: redaction is non-interfering |
| Canonical.RenderIsLines | pkg/sigv4/verify.go:111-137 | a rendering is its lines joined: method, path, query, a line for each signed header, an empty line, the header list and the content hash |
| Canonical.RenderedAlikeAreAlike | pkg/sigv4/verify.go:56-68 | a rendering determines method, path, content hash, the signed headers with their values and each query key's values; the redacted one all of these but the session token's values |
| Canonical.RenderingIsExact | pkg/sigv4/verify.go:56-68 | two requests without newlines, and without colons in header names, have one canonical request, or one redacted form, if and only if they are alike in all that it renders |
| Canonical.CanonicalRequest | pkg/sigv4/verify.go:70-138 | builds the canonical request, or its redacted form, from the maps taken in any order |
| RateLimit.RunKeepsInv | pkg/ratelimit/ratelimit.go:93-120 | in every interleaving the lock excludes, the map is what the history says, unpublished limiters are unseen and unshared, a caller's view under the lock is true, and a sweep has removed exactly the stale entries it visited |
| RateLimit.SameLimiterIffNotEvicted | pkg/ratelimit/ratelimit.go:93-94 | two resolutions of a key give the same limiter if and only if it was not evicted between them |
| RateLimit.OneKeyPerLimiter | pkg/ratelimit/ratelimit.go:93-94 | no limiter is resolved for two keys |
| RateLimit.EveryRunIsSound | pkg/ratelimit/ratelimit.go:93-120 | both of these, of resolutions under the lock, in every run of any number of callers and sweeps |
| RateLimit.RunReturnsResolved | pkg/ratelimit/ratelimit.go:101-119 | in every run each return is of what that same call resolved under the lock: the caller's last event before it |
| RateLimit.EveryReturnIsSound | pkg/ratelimit/ratelimit.go:93-120 | in every run two returns go back to two resolutions of their own calls; for one key they give one limiter if and only if the key was not evicted between those two; and no limiter is returned for two keys |
| RateLimit.LoserIsDiscarded | pkg/ratelimit/ratelimit.go:109-114 | the caller that loses the insertion race takes the winner's limiter, and its own is nowhere |
| RateLimit.LoserIsNeverPublished | pkg/ratelimit/ratelimit.go:109-114 | whatever steps follow, a discarded limiter is never resolved for anyone |
| RateLimit.SweepRemovesTheStale | pkg/ratelimit/ratelimit.go:80-88 | a finished sweep has removed exactly the entries that were stale when it took the lock |
| Eviction.RunUsesKnown | pkg/ratelimit/ratelimit.go:95-118 | in every run each entry was last seen at the time of the call that touched it or put it in last |
| Eviction.OnlyTheUnusedAreEvicted | pkg/ratelimit/ratelimit.go:80-88 | in every run a key is evicted only if the call that used it last was made before the sweep's cutoff |
| Eviction.SweepIsExact | pkg/ratelimit/ratelimit.go:80-88 | in every run a whole sweep, whatever callers do meanwhile, keeps exactly the keys whose last use was by a call made at or after the cutoff |
| Eviction.CallMarksItsKey | pkg/ratelimit/ratelimit.go:93-120 | an undisturbed call leaves its key with the limiter it returns, seen when the call was made, and every other entry as it was |
| Limits.KeyKeepsAction | pkg/ratelimit/ratelimit.go:151 | the action can be read back from a key if and only if the account has no colon |
| Limits.RunLimitsMatch | pkg/ratelimit/ratelimit.go:93-120 | when each call's action has the limit wanted of its key, so has every limiter in the map, with any caller at any point, and in all that was resolved or returned |
| Limits.LimitsAreExact | pkg/ratelimit/ratelimit.go:145-152 | for every configuration: in every run whose calls ask for given keys under given actions each return is of a limiter with the limit configured for that very call's action, if and only if no key is asked for under two actions with different limits |
| Limits.AccountsAreExact | pkg/ratelimit/ratelimit.go:145-152 | under every configuration each of the middleware's calls for some accounts is given its own action's limit, in every run, if and only if no account id extends another past a colon |
| Limits.ReturnedRateAndBurst | pkg/ratelimit/config.go:17-24 | where each key is asked for under one action, every return is of a limiter with that action's own rate and burst, or the default ones where it has none |
| Limits.MiddlewareKey | pkg/ratelimit/ratelimit.go:145-151 | the key is account, colon, action, and the action `unknown` where none was extracted |
| Limits.ColonFreeIsSeparate | pkg/ratelimit/ratelimit.go:22-25 | which colon-free account ids do not |
| Limits.ColonFreeLimits | pkg/ratelimit/ratelimit.go:145-152 | with colon-free accounts the limit at a key, in the map and in whatever was returned for it, is that of the action the key ends in |
| Limits.OneLimiterPerAccountAndAction | pkg/ratelimit/ratelimit.go:22-25 | with separate accounts no limiter is returned for two pairs of account and action, and two calls for one pair share theirs if and only if it was not evicted between their resolutions |
| Limits.SharedKeySharesLimit | pkg/ratelimit/ratelimit.go:94-102 | for any key and two actions, the run in which the second call is given the limiter made for the first one's action |
| Limits.ColonAccountsCollide | pkg/ratelimit/ratelimit.go:145-152 | wherever the two actions are limited differently, a run of the middleware's calls for two accounts, one with a colon, in which a call is given a limiter carrying the other action's limit |
| RateLimit.HitCall | pkg/ratelimit/ratelimit.go:97-102 | the steps of an undisturbed call on a present key return its limiter and touch it |
| RateLimit.MissCall | pkg/ratelimit/ratelimit.go:103-119 | the steps of an undisturbed call on an absent key publish and return one new limiter at the action's limit |
| RateLimit.SlowReturnIsStale | pkg/ratelimit/ratelimit.go:98-101 | a run in which a call returns an evicted limiter after a newer one was returned, with no eviction between the two returns |
| RateLimit.WritePart | pkg/ratelimit/ratelimit.go:108-119 | a caller's steps under the write lock, from any state, keep and touch whoever came first and put its own limiter in where there is none |
| RateLimit.Throttler.LookUp | pkg/ratelimit/ratelimit.go:97-103 | the section under the read lock: the present limiter, its entry seen now, or nothing and no change |
| RateLimit.Throttler.InsertUnlessPresent | pkg/ratelimit/ratelimit.go:108-119 | the section under the write lock does to the map, and keeps, what those steps do: whoever came first, otherwise the new limiter, seen now |
| RateLimit.Throttler.GetOrCreate | pkg/ratelimit/ratelimit.go:93-120 | with others at work between its sections: the limiter returned is the key's, last seen now, and no other entry of the map as its last section finds it changes; it is the present one, or whoever came first, or a new one at the action's limit |
| RateLimit.Throttler.Sweep | pkg/ratelimit/ratelimit.go:80-88 | the loop removes exactly the stale entries, visiting keys in any order |

## Left out

- Unicode: lower-casing of actions and case folding of condition values are function parameters, a folding being assumed not to hide or make a `$` or a `${`; folding to the session token's name and to the words of Null conditions is exact on UTF-8.
- Legacy.CopyWithLiteralVariables: does not say that the copy shares no list with the original, because lists inside a statement are values.
- Date, address and CIDR parsing (`time`, `net/netip`): function parameters, with IPv4-mapped addresses already unmapped and prefixes already masked.
- SHA-256, HMAC, the signing key, `Verify` and the string to sign: the hash is a function parameter, the rest would only restate calls.
- JSON decoding of documents: statements are taken decoded, a Principal is a flag, and nil and empty slices are one.
- 64-bit overflow in numbers.go: integers are unbounded, which differs only for strings of some 2^62 bytes.
- The slices and maps inside a statement are values; the slice of statements is an array, so "sharing nothing mutable" is shown for the statements and not for the lists within them.
- The library sort is a sort on sequences that may break ties either way, not an in-place one; `strings.Index`, `Cut`, `ReplaceAll`, `Trim` and `Join` are functions.
- A transport is a finite list of chunks and then end-of-file, so one that returns nothing forever is not modelled for `ReadFull`; the run theorems take any list of answers.
- payloadMode, parse.go, SetRequestTime, SubstitutableKeys, UnsupportedVariable: short or plumbing.
- The HTTP middleware, the ticker, goroutine start and stop, and the token arithmetic of `rate.Limiter`: a limiter is its identity and its configured rate and burst.
- The clock: the time of a call and the cutoff of a sweep are arbitrary numbers, in any order.
- Logging, `pkg/otelsetup`, `pkg/tlsconfig`, `pkg/fipsboot`, `pkg/masterkey`, `pkg/safecast` and `pkg/auth`.
