# cpp-util sequence helpers, modelled in Dafny

A model of the generic helpers of the `cpp-util` header library: `zip`,
`enumerate`, the character-delimiter `split`, `list_comprehension` and
`set_comprehension` (each with and without a predicate) and `join`. Every
one of them is a loop that builds a fresh vector, set or string from
in-memory input, so each is modelled as a Dafny `method` with the same loop
and its invariants, and proved equal to (or to satisfy) a pure reference
definition whose properties are proved as lemmas.

Files, one module per component:

- `pairing.dfy` (`Pairing`): `Zip`, `Enumerate`, and the reference zip
  `Zipped` with its inverse (`Firsts`/`Seconds`).
- `comprehension.dfy` (`Comprehension`): the four comprehension loops, the
  reference filter `Filter` and the element set `Elements`, and the
  demonstration program's sample call.
- `joining.dfy` (`Joining`): `Join`, which runs over the result of
  `Enumerate` as the source does, and the reference `Intercalate`.
- `tokenize.dfy` (`Tokenize`): `Split`, the reference `Tokens` (cut at every
  delimiter with `Pieces`, keep the non-empty pieces), and the round trips
  between splitting and joining.

Vectors and strings are `seq`s (`string` is `seq<char>`), `std::pair` is
the datatype `Pairing.Pair` with fields `first` and `second`, `std::set` is a
Dafny `set`, a predicate is a total function `T -> bool`, and container
iterators are indices into the sequence.

`split` is written out three times with the same body (include/util.h:70-89,
util.h:68-87, src/util.cpp:5-24); `zip`, `enumerate` and the comprehensions
twice (include/util.h and util.h). One Dafny member models every copy; the
table cites one copy per row and the copies are interchangeable.

## Model

| member | source | states |
|---|---|---|
| `Pairing.Zipped` | include/util.h:32-38 | the pairing has as many pairs as the shorter input and its k-th pair is (first[k], second[k]) |
| `Pairing.Zip` | include/util.h:29-39 | the loop (both iterators advance together, stops when either ends, the `i < last_idx` guard kept) builds min(len(first), len(second)) pairs, the k-th being (first[k], second[k]) |
| `Pairing.UnzipZipped` | util.h:30-36 | taking the first (second) components of the zip gives back the first min(len(first), len(second)) elements of `first` (`second`) |
| `Pairing.ZippedUnzip` | util.h:27-37 | zipping the first and second components of a sequence of pairs rebuilds it |
| `Pairing.Enumerate` | include/util.h:52-60 | exactly len(c) pairs, pair i is (i, c[i]) with the counter starting at 0; it is `Zipped` of 0..len(c)-1 with `c`, so by `UnzipZipped` dropping the indices gives back `c` (same loop at util.h:50-58) |
| `Comprehension.FilterMembers` | include/util.h:126-130 | an element is in the filtered sequence only if it is in `c` and satisfies the predicate, and every element of `c` that satisfies it is kept |
| `Comprehension.FilterSnoc` | include/util.h:126-130 | one more loop step: the element is appended exactly when the predicate holds |
| `Comprehension.FilterAppend` | util.h:102-111 | filtering distributes over concatenation, so the original order is kept |
| `Comprehension.FilterMultiplicity` | util.h:105-109 | each value occurs in the result as often as in `c` if it passes and not at all if it fails |
| `Comprehension.FilterKeepAll` | include/util.h:101-108 | when every element passes, the result is `c` itself: the unfiltered copy is the filter with an always-true predicate |
| `Comprehension.Elements` | include/util.h:144-151 | the set holds exactly the elements of the sequence and has at most as many members |
| `Comprehension.ListComprehension` | include/util.h:101-108 | the unfiltered loop returns a copy equal to the input (same loop at util.h:91-98) |
| `Comprehension.ListComprehensionWhere` | include/util.h:123-132 | the predicate loop returns `Filter(c, pred)`: exactly the passing elements in original order (same loop at util.h:102-111) |
| `Comprehension.SetComprehension` | util.h:115-122 | the unfiltered set holds exactly the elements of `c`, duplicates collapsed, so at most len(c) members (same loop at include/util.h:144-151) |
| `Comprehension.SetComprehensionWhere` | include/util.h:166-175 | the set holds exactly the elements of `c` that satisfy the predicate (same loop at util.h:126-135) |
| `Comprehension.Sample` | main.cpp:5-6 | filtering "HixmyxnamexisxJamesxhixxxxxx" with "not 'x'" into a set gives {H, i, m, y, n, a, e, s, J, h} |
| `Joining.IntercalateFront` | include/util.h:191-198 | read front to back, the join of two or more strings is c[0], the delimiter, then the join of the rest |
| `Joining.IntercalateLength` | include/util.h:192-196 | for n >= 1 strings the result length is the sum of their lengths plus (n - 1) delimiters |
| `Joining.Join` | include/util.h:189-199 | the loop over `enumerate(c)` that adds the delimiter only while `idx < c.size() - 1` returns `Intercalate(c, d)`: "" for no strings, c[0] for one, no trailing delimiter; its length follows from `IntercalateLength` |
| `Tokenize.Pieces` | src/util.cpp:10-22 | cutting at every delimiter gives one piece more than there are delimiters |
| `Tokenize.PiecesDelimiterFree` | src/util.cpp:11-18 | no piece contains the delimiter: a delimiter ends the current token and is never appended to it |
| `Tokenize.Tokens` | include/util.h:77-86 | no token is empty, no token contains the delimiter, at most (number of delimiters + 1) tokens |
| `Tokenize.Split` | src/util.cpp:5-24 | the loop (push a non-empty token at each delimiter and reset it, push the token at the last character) returns `Tokens(s, delimiter)`, in left-to-right order, so every property proved of `Tokens` holds of its result (same loop at include/util.h:70-89 and util.h:68-87) |
| `Tokenize.TokensConcat` | include/util.h:75-87 | the tokens concatenated in order equal `s` with every delimiter removed |
| `Tokenize.TokensEmpty` | util.h:71-86 | `split` returns [] exactly when `s` is empty or made of delimiters only (both directions) |
| `Tokenize.TokensWhole` | src/util.cpp:8-23 | a non-empty `s` without the delimiter is returned as the single token [s] |
| `Tokenize.JoinPieces` | include/util.h:73-88 | joining the pieces with the delimiter rebuilds `s`: cutting loses no character |
| `Tokenize.SplitJoin` | util.h:68-87 | splitting the join of non-empty, delimiter-free strings returns exactly those strings |
| `Tokenize.JoinSplit` | include/util.h:189-199 | for a non-empty `s` without leading, trailing or doubled delimiters, joining the tokens of `s` with the delimiter rebuilds `s` |

## Left out

- `Pairing.Zip`: the source function has no `return` statement, so calling it is undefined behaviour in C++; the model returns the vector its loop builds.
- Integer widths: the source's `int` counters compared with `size_t` sizes would overflow past INT_MAX elements; the model uses unbounded `nat` indices, and `enumerate`'s indices are `nat` where the source uses `int`.
- `submit` and `execute` in include/executor.h only launch `std::async` / `std::jthread` tasks; concurrency is not modelled.
- The `is_container` concept (custom_concepts.h) is a compile-time requirement with no runtime behaviour; every container is a `seq`.
- A substring-delimiter `split` exists in none of include/util.h, util.h or src/util.cpp (include/util.h:72 leaves it as a TODO), so only the single-character delimiter is modelled.
- `std::set` ordering and iteration order are not modelled; a set is a Dafny `set`.
- The default arguments (`' '` for `split`'s delimiter, `" "` for `join`'s) are not modelled; callers pass the delimiter explicitly.
- `join`'s `static_cast<std::string>` conversion is not modelled; its elements are strings already.
- The demonstration program's printing (main.cpp) is not modelled; only its sample input and predicate are used.
- The list-form result of the sample call is not stated as a constant; `Comprehension.Sample` states the set form, which is what the program computes.
