# urlshorten in Dafny

urlshorten is a small URL-shortening web service. A long URL posted to
`/urls/` is stored in one of two tables:

- **Public.** The URL goes into `shortenedurls`, under an auto-increment id.
  The answer is the id written as a short code: base 66 over the 66-symbol
  alphabet `_text`, least-significant digit first. An id whose code would be
  `urls` is thrown away and the insert is repeated, because `urls` is a path
  segment of the API.
- **Secret.** The URL goes into `secreturls`, under a random id. The id is `+`
  followed by five or more random symbols of the alphabet. It gets one symbol
  longer after every eleven collisions.

A code is resolved by `get_url`. A leading `+` selects the secret table.
Anything else is decoded and looked up by id.

The three API methods under `/urls/` (`ShortUrl.get`, `ShortUrlList.get` and
`ShortUrlList.post`) are behind a sliding-window rate limiter, `check_limit`.
It keeps a queue of expiry times per client address. The index page and the
redirect route `/<code>` are not rate limited.

This project models that core of `urlshorten.py` and proves its properties.

| module | file | models |
|---|---|---|
| `Wrappers` | `wrappers.dfy` | `Option` and `Result` |
| `Codec` | `codec.dfy` | `_text`, `number_to_text`, `text_to_number` |
| `Validator` | `validator.dfy` | `_url_regex` and `valid_url` |
| `RateLimit` | `ratelimit.dfy` | `limiter_dict` and `check_limit`, with the refusal test of the `limit` decorator |
| `Store` | `store.dfy` | both tables, `add_url` and the retry loop of `ShortUrlList.post`, `add_secret_url`, `get_url` / `get_secret_url`, and the decisions of `ShortUrlList.post` |

### How each part is modelled

**`Codec`.**
- The encoder and the decoder are loops in the source. So they are the
  methods `NumberToText` and `TextToNumber`, proved against the pure
  functions `Encode` and `Decode`.
- `Decode` follows the decoder's loop over positions. It returns `None`
  where `str.index` raises `ValueError`.
- Lemmas prove about `Encode` and `Decode`:
  - the round trip in both directions;
  - the shape of every code;
  - exactly when decoding fails.
- The alphabet literal is written out in six pieces. `TextDistinct` proves
  that it has 66 pairwise distinct symbols, so `str.index` really inverts
  the lookup of a digit.

**`Validator`.**
- `ValidUrl` is a hand-written scanner for the regular expression as
  Python's `re.match` applies it:
  - `\s` is every character `str.isspace` accepts;
  - the bare `.` is any character but a newline;
  - `$` also accepts one newline that ends the string.
- `ValidUrlMatchesRegex` proves the scanner equal to a declarative reading
  of the regular expression, piece by piece.

**`RateLimit`.**
- `Limiter` holds `limiter_dict` as a `map` from client key to a sequence of
  expiry times.
- The prune loop pops the front of the sequence in place (`PopExpired`).
- `Check` prunes, pushes and reports. It is proved against the functions
  `Pruned` and `Admit`.
- The lemmas about `Admit` say:
  - when a call is refused;
  - how a burst fills the window;
  - how the hard-coded push bound of 20 interacts with the configured limit
    (see Findings).

**`Store`.**
- `Database` is a class holding:
  - the public table, as a sequence of rows in insertion order;
  - the next auto-increment id;
  - the secret table, as a `map`.
- `AddUrl`, `ShortenPublic` (the retry loop), `AddSecretUrl` (with its loop
  in `FreshSecret`) and `Post` are methods. Each states its whole new state.
- The random symbol choices of `add_secret_url` are an input `draw`. The
  n-th call of `random.choice(_text)` yields `Text[draw(n)]`.
- `Candidate(draw, k)` is the k-th candidate the loop draws. `Schedule`
  proves the length escalation of that loop.

### Behaviour worth knowing

- **Alphabet.** The alphabet `_text` has 66 symbols, so codes are written in
  base 66.
- **Secret-id lengths.** `add_secret_url` escalates when `tries > 10`. It
  therefore draws eleven candidates at each length before moving to the next
  length.
- **Pruning.** `check_limit` prunes slots that are strictly before `now`. A
  slot ending exactly at `now` still counts.
- **Push bound.** `check_limit` pushes a new slot only while the pruned queue
  holds at most 20 slots. That 20 is a literal, independent of
  `GLOBAL_RATELIMIT`.
- **Empty code.** `text_to_number("")` is 0.
- **Spaces in URLs.** The regular expression lets a space through as the
  character right after the host's first character, so `http://a b` is
  valid. A space anywhere after that makes the URL invalid.
- **First refusal.** With a limit of 20, the 20th call of a burst within the
  hour is served. The 21st is the first one refused
  (`TwentyFirstCallRefused`).

## Model

| member | source | states |
|---|---|---|
| `Codec.TextDistinct` | urlshorten.py:31-32 | the alphabet literal has exactly 66 symbols, and no symbol occurs twice, so `_base` is 66 |
| `Codec.IndexOf` | urlshorten.py:46 | `str.index`: a found position holds the character |
| `Codec.IndexOfNone` | urlshorten.py:46 | `str.index` fails exactly when the character does not occur in the string |
| `Codec.IndexOfFirst` | urlshorten.py:46 | `str.index` returns the first occurrence: no earlier position holds the character |
| `Codec.IndexOfText` | urlshorten.py:46 | looking up the symbol of digit d in the alphabet gives back d (needs distinctness) |
| `Codec.InAlphabetIff` | urlshorten.py:46 | a character has a digit value exactly when it occurs in `_text` |
| `Codec.Digits` | urlshorten.py:38-40 | the symbols the encoder's while loop appends, least significant first; empty exactly when the number is 0 |
| `Codec.Encode` | urlshorten.py:34-41 | the reference code of a number, never empty |
| `Codec.Decode` | urlshorten.py:43-47 | the reference value of a code: the value of all but the last character plus the last digit times 66 to the power of its position, `None` once a character is not a digit; its properties are the `Decode…` lemmas below |
| `Codec.NumberToText` | urlshorten.py:34-41 | the encoder's loop produces `Encode(n)`: the symbol of digit 0 for 0, otherwise the base-66 digits least-significant first |
| `Codec.TextToNumber` | urlshorten.py:43-47 | the decoder's loop yields `Decode(s)`: the sum of digit(s[i]) * 66^i, or failure when some character is not in the alphabet |
| `Codec.DecodeEncode` | urlshorten.py:34-47 | round trip: decoding the code of any n >= 0 gives back n |
| `Codec.EncodeDecode` | urlshorten.py:34-47 | reverse round trip: a canonical code (alphabet symbols only, no trailing first symbol unless it is that symbol alone) is the code of the number it decodes to |
| `Codec.EncodeShape` | urlshorten.py:34-41 | a code is never empty; the code of 0 is `_text[0]`; every symbol is in the alphabet; for n > 0 the last symbol is not `_text[0]` |
| `Codec.EncodeInjective` | urlshorten.py:34-41 | two numbers get the same code exactly when they are equal |
| `Codec.DecodeFails` | urlshorten.py:43-47 | decoding fails exactly when some character of the string is outside the alphabet |
| `Codec.DecodeEmpty` | urlshorten.py:43-47 | the empty string decodes to 0 |
| `Codec.DecodeTrailingZero` | urlshorten.py:43-47 | appending `_text[0]` (a most-significant zero digit) does not change the decoded value or the failure |
| `Codec.DecodeSnoc` | urlshorten.py:45-46 | one more character at the end adds its digit times 66 to the power of its position, or fails if it is not a digit |
| `Codec.DecodeCons` | urlshorten.py:43-47 | one more character in front gives its digit plus 66 times the value of the rest (Horner form of the little-endian value) |
| `Validator.ValidUrl` | urlshorten.py:49-50 | `valid_url`: an accepted URL starts with one of the three schemes and has at least 8 characters |
| `Validator.IsSpace` | urlshorten.py:29 | `\s` of a `str` pattern: exactly the characters `str.isspace` accepts (tab to carriage return, `\x1c`-`\x1f`, space, `\x85`, `\xa0`, and the Unicode spaces and separators up to U+3000) |
| `Validator.Body` | urlshorten.py:29 | `[^\s/$.?#].[^\s]*` matching a whole string: a host-start character, a non-newline character, then no whitespace |
| `Validator.BodyThenEnd` | urlshorten.py:29 | the body followed by `$`: the string ends there, or one newline ends it |
| `Validator.RegexMatch` | urlshorten.py:29 | `re.match` of the whole pattern: one of `http://`, `https://`, `ftp://`, then the body followed by `$` |
| `Validator.ValidUrlMatchesRegex` | urlshorten.py:29 | `valid_url` holds exactly when the string is `http://`, `https://` or `ftp://` followed by a host-start character (not whitespace, `/`, `$`, `.`, `?`, `#`), then a non-newline character, then non-whitespace characters, with at most one final newline |
| `Validator.ScanBody` | urlshorten.py:29 | after the scheme, the scanner accepts exactly what `[^\s/$.?#].[^\s]*$` matches |
| `Validator.AcceptedPlain` | urlshorten.py:49-50 | `http://x.io` is valid |
| `Validator.AcceptedSpaceAfterHost` | urlshorten.py:49-50 | `http://a b` is valid: the bare `.` lets a space through |
| `Validator.AcceptedTrailingNewline` | urlshorten.py:49-50 | `http://ab` followed by one newline is valid: `$` matches before a final newline |
| `Validator.AcceptedFtp` | urlshorten.py:49-50 | `ftp://h/p` is valid |
| `Validator.AcceptedHttps` | urlshorten.py:49-50 | `https://a.b` is valid |
| `Validator.RejectedShort` | urlshorten.py:49-50 | the empty string, `https://` and `http://x` are invalid: the body needs two characters |
| `Validator.RejectedSpaceInRest` | urlshorten.py:49-50 | `http://ab c` is invalid |
| `Validator.RejectedNewlineAsSecond` | urlshorten.py:49-50 | `http://a` followed by a newline is invalid: the bare `.` does not match a newline |
| `Validator.RejectedDotHost` | urlshorten.py:49-50 | `http://.x` is invalid: a host cannot start with `.` |
| `Validator.RejectedNoScheme` | urlshorten.py:49-50 | every string that does not start with `http://`, `https://` or `ftp://` is invalid |
| `Validator.RejectedNotAUrl` | urlshorten.py:49-50 | `not a url` is invalid |
| `RateLimit.QueueOf` | urlshorten.py:53-57 | the queue of a key; a key seen for the first time gets an empty queue |
| `RateLimit.Pruned` | urlshorten.py:53-55 | pruning removes a prefix of the queue, every removed slot is strictly before now, and the first slot kept is not |
| `RateLimit.Admit` | urlshorten.py:59-60 | after a call the queue is never empty, and a queue of at most bound + 1 slots stays within bound + 1 |
| `RateLimit.PrunedSorted` | urlshorten.py:54-55 | pruning an ordered queue keeps it ordered and leaves only slots at or after now |
| `RateLimit.AdmitKeepsOrder` | urlshorten.py:52-61 | with a clock that does not run backwards, the queue stays ordered and holds only slots ending within now..now + 3600 |
| `RateLimit.ExpiredWindowResets` | urlshorten.py:54-60 | once every slot has expired, a call leaves the single slot now + 3600 |
| `RateLimit.BurstLength` | urlshorten.py:59-60 | n calls at one instant add one slot each until the queue holds bound + 1 |
| `RateLimit.BurstFromEmpty` | urlshorten.py:57-60 | a burst of n calls on a new key leaves min(n, 21) slots |
| `RateLimit.TwentyFirstCallRefused` | urlshorten.py:59-67 | with a limit of 20, the 20th call of a burst gets remaining 0 (served) and the 21st gets -1 (refused) |
| `RateLimit.RefusedIffFull` | urlshorten.py:59-67 | as written, for any limit up to 20, a call is refused exactly when the pruned window already holds limit slots |
| `RateLimit.AsWrittenNeverRefuses` | urlshorten.py:59-61 | as written, with a limit of 21 or more, no call on a queue the limiter keeps is ever refused |
| `RateLimit.AsWrittenBurstOfThirty` | urlshorten.py:59-61 | as written, with a limit of 30, the 31st call of a burst within the hour is still served |
| `RateLimit.CorrectedRefusedIffFull` | urlshorten.py:59-61 | with the push bound equal to the limit, for every limit a call is refused exactly when the pruned window already holds limit slots |
| `RateLimit.Limiter.constructor` | urlshorten.py:27 | `limiter_dict` starts empty |
| `RateLimit.Limiter.PopExpired` | urlshorten.py:53-55 | the in-place pop loop leaves the key's queue pruned and every other key untouched |
| `RateLimit.Limiter.Check` | urlshorten.py:52-61 | only the caller's key changes: a new key starts from an empty queue, the queue is pruned then pushed only if at most bound long, and the result is (limit - length, front slot) |
| `RateLimit.Limiter.CheckLimit` | urlshorten.py:52-61 | `check_limit` as written: `Check` with push bound 20; a queue of at most 21 slots stays non-empty and at most 21 long |
| `RateLimit.Limiter.CheckLimitCorrected` | urlshorten.py:59-61 | `check_limit` with the push bound set to the limit: the remainder is negative exactly when the pruned window held limit slots |
| `Store.ReservedDigits` | urlshorten.py:31 | the digit values of `u`, `r`, `l`, `s` are 11, 23, 16, 1 |
| `Store.ReservedDecodes` | urlshorten.py:125 | `urls` is a canonical code and decodes to 358721 |
| `Store.ReservedIdOnly` | urlshorten.py:125-126 | the code of n is `urls` exactly when n is 358721, so `add_url` discards exactly one id |
| `Store.PlusNotInAlphabet` | urlshorten.py:114-117 | `+` is not a symbol of the alphabet, so no public code is routed to the secret table |
| `Store.Lookup` | urlshorten.py:118 | the query by id finds nothing only when no row has that id, and otherwise a row with that id and the returned URL |
| `Store.LookupFinds` | urlshorten.py:118 | with increasing ids, looking up a stored row's id returns that row's URL |
| `Store.TriesAfter` | urlshorten.py:137-142 | the `tries` counter of `add_secret_url` never exceeds 11 |
| `Store.LengthAfter` | urlshorten.py:136-140 | the `length` variable after a turns of the loop; never below 5 |
| `Store.Offset` | urlshorten.py:141 | how many random symbols the first k candidates use up; at least 5 per candidate |
| `Store.Secret` | urlshorten.py:141 | a candidate is `+` followed by exactly length symbols |
| `Store.Candidate` | urlshorten.py:141 | the k-th candidate: `+` followed by as many symbols as the length in its turn |
| `Store.Schedule` | urlshorten.py:135-142 | in turn k + 1 of the loop, `tries` is k mod 11 + 1 and the length is 5 + k / 11: it starts at 5, and after every 11 candidates it grows by one and `tries` restarts |
| `Store.CandidateShape` | urlshorten.py:134-141 | every candidate is non-empty, starts with `+`, has 6 + k / 11 characters (at least 6), and all after the `+` are alphabet symbols |
| `Store.IssuedId` | urlshorten.py:202-209 | the id the public branch hands out is never 358721, and is the next id or the one after it |
| `Store.InsertedRows` | urlshorten.py:202-205 | the public branch inserts one or two rows, all with the URL, the last under the issued id |
| `Store.InsertedRowsSteps` | urlshorten.py:202-205 | one `add_url` insert, or two when the first id is 358721, add exactly the rows `InsertedRows`, the last under the issued id |
| `Store.RowsAppend` | urlshorten.py:122-124 | an insert under the next auto-increment id keeps the ids positive, increasing and below the next id, and that id was not in use |
| `Store.SecretIdsInsert` | urlshorten.py:144-146 | storing under a `+` id keeps every secret id starting with `+` |
| `Store.Database.constructor` | urlshorten.py:111 | both tables start empty and the first auto-increment id is 1 |
| `Store.Database.GetUrl` | urlshorten.py:113-119 | a `+` code is looked up in the secret table; any other code resolves exactly when it decodes to a stored public id, and then to the URL of a row with that id |
| `Store.Database.AddUrl` | urlshorten.py:121-127 | exactly one row with a fresh id is inserted and kept; the result is -1 exactly when that id's code is `urls` (id 358721), and the id otherwise |
| `Store.Database.ShortenPublic` | urlshorten.py:202-209 | the retry loop inserts one row, or two when it starts on 358721; it answers the code of the issued id, which is never `urls` and resolves back to the URL |
| `Store.FreshSecret` | urlshorten.py:134-142 | the loop ends with a non-empty id not yet taken; it is candidate number attempts - 1, and every earlier candidate was taken |
| `Store.Database.AddSecretUrl` | urlshorten.py:133-147 | the new id was absent before; the secret table becomes the old one plus exactly that id with the URL; the public table is unchanged; the id resolves to the URL |
| `Store.Database.Post` | urlshorten.py:186-209 | an empty url is refused as missing and an invalid one as invalid, with nothing changed; otherwise it succeeds, and the answer resolves to the URL: a fresh `+` id of at least 6 characters in the secret branch, or the issued public code in the other, with the next auto-increment id one past the issued id |
| `Store.ResolvePublic` | urlshorten.py:117-119 | every stored public row is found again under the code of its id |
| `Store.ResolveMissing` | urlshorten.py:113-119 | a public code that does not decode, or decodes to an id no row has, resolves to nothing |
| `Store.ResolveEmpty` | urlshorten.py:113-119 | the empty code decodes to 0, which no row uses, so it resolves to nothing |

## Left out

- **HTTP layer.** Flask routing, the index page, `redirect_short_url`,
  `shutdown_session` and the JSON answers are not modelled; `Post` returns a
  `Result` instead of status codes. The paging listing of `ShortUrlList.get`
  is left out too, because its ordering and offsets belong to the database.
- **reqparse.** `url` is a plain string and `secret` a `bool`. With
  `type=bool`, reqparse turns every non-empty string, even `False`, into
  true; the model takes the truth value after that conversion.
- **Exceptions.** The bare `except` clauses that answer 404 or 500 are not
  modelled. A failed lookup is `None`, a failed decode is `None`, and
  database errors are not modelled.
- **The SQL engine.** The session, the ORM classes and `create_all` are
  replaced by a sequence of rows with an auto-increment counter and a map of
  secret ids. Each `commit` is taken to succeed.
- **The limit decorator.** Its headers are not modelled. Its refusal test,
  `remaining < 0`, appears only in the lemmas about `Admit`.
- **Environment.** `GLOBAL_RATELIMIT` and `DB_URL` from `os.environ` are not
  read: the limit is a parameter.
- **Time.** `time.time()` is a float. For a known key, `check_limit` reads it
  at every test of the prune loop: once for each popped slot, and once more
  when a slot remains. It reads it once more for the push. The model uses one
  integer instant for all of these reads. So it does not model a clock that
  moves during the prune loop or between the prune and the push, nor the
  `int` truncation of the pushed slot.
- **Randomness.** `random.choice` is the input `draw`. Nothing about the
  distribution of ids is modelled.
- **Concurrency.** Concurrent requests sharing `limiter_dict` or the tables
  are not modelled; the model is sequential.
- **`__repr__`.** The `__repr__` methods of the two ORM classes are left out,
  because they are debugging output only.
- `RateLimit.Limiter.CheckLimit`: the bound of 21 slots per queue is stated
  for a call on a queue that held at most 21. It is not kept as a class
  invariant, because `Check` is shared with the corrected variant, whose
  bound is the limit.
- `Store.Database.Post`: in the secret branch, the id is described by its
  shape, its freshness and the new table. The draw-by-draw description is
  left to `AddSecretUrl` and `FreshSecret`.

## Findings

| source | as written | input that shows it | evidently intended | confidence | as-written member | corrected member |
|---|---|---|---|---|---|---|
| urlshorten.py:59-61 | a new slot is pushed while the pruned queue holds at most a literal 20, whatever `GLOBAL_RATELIMIT` says, so a queue never exceeds 21 slots | `GLOBAL_RATELIMIT=30` and 31 calls from one address within an hour: the 31st gets remaining 30 - 21 = 9 and is served; no call is ever refused with a limit of 21 or more | push while the pruned queue holds fewer slots than the configured limit allows, so that a call is refused exactly when limit slots are already held | medium; not executed | `RateLimit.AsWrittenNeverRefuses` | `RateLimit.CorrectedRefusedIffFull` |

In the same model:

- `RateLimit.AsWrittenBurstOfThirty` exhibits the concrete burst.
- `RateLimit.Limiter.CheckLimitCorrected` is the corrected `check_limit`.
- With limits of 20 or less, the two agree (`RateLimit.RefusedIffFull`).
