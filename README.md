# vacant-domains, modelled in Dafny

The repository holds two near-duplicate Node scripts, `headless.js` and
`puppeteer.js`. Each scans a word list and records, for every word, which
top-level domains (TLDs) are still free. A pool of workers shares a cursor into
the dictionary. Each worker claims the next word, looks it up, and commits the
ranked TLD list to a ledger kept in `output.json`. The lookup is done over HTTP in
`headless.js` and by driving a browser in `puppeteer.js`.

This project models the part of the scripts that is sequential and exact:

- the request-signing string hash (`SignHash`);
- the framing of the newline-delimited lookup response into JSON array text (`Framing`);
- the ranking pipeline: filter the unregistered records, sort by rank, keep the TLD names (`Ranking`);
- the dictionary preparation (`Dictionary`, and `JsString.Split` for `puppeteer.js`);
- the ledger and its commit effect (`Ledgers`);
- the startup check and the claim/commit work loop of each script (`Headless`, `Puppeteer`).

The JavaScript built-ins these rely on are modelled in `JsString`:

- `length` and `charCodeAt`, which count UTF-16 code units;
- `toLowerCase`, `split`, `replace` and `slice`.

The lookup itself is not modelled. It appears as the `tldList` argument of
`Commit`, and as a `resolve` function argument of `Headless.Scanner.Drain`.

A claim step and a commit step each contain no `await`. On Node's single event
loop each of them therefore runs as one atomic step. A `Scanner` class with
`Claim` and `Commit` methods captures this. Any interleaving of the N workers is
a sequence of calls to those two methods. The claim records whether the word
still needs resolving, because `parsedWords.includes` runs before the `await`.
So the model also allows the known effect of a duplicated dictionary word: two
claims can both see the word as new, and both then commit it (see
`Ledgers.RecordTwice`).

The framing lines (`headless.js:52-54` and `puppeteer.js:37-38`) are identical,
and so are the ranking lines (`headless.js:61-63` and `puppeteer.js:45-47`). Each
is modelled once, and the table cites the lines of both scripts. The two ledger
commits differ only in how many TLDs they keep: 2 in `headless.js`, 3 in
`puppeteer.js`. Both use `Ledgers.Record` with that count.

## Model

| member | source | states |
|---|---|---|
| JsString.CodeUnits | headless.js:155 | `charCodeAt` sees one code unit for a Basic Multilingual Plane character and two for any other character; every unit is below 0x10000 |
| JsString.CodeUnitsRoundTrip | headless.js:155 | decoding the code units of a character gives the character back; a pair is a high surrogate followed by a low surrogate |
| JsString.Utf16 | headless.js:154 | the code units the hash loop runs over (`e.length` of them): at least one and at most two per character, each below 0x10000 |
| JsString.Utf16Append | headless.js:154-155 | the code units of a concatenation are those of the first part followed by those of the second, so a string's units are its characters' `CodeUnits` in order |
| JsString.JsLength | headless.js:147-154 | `s.length` counts code units: at least the number of characters and at most twice it |
| JsString.BmpLength | headless.js:147-155 | for a word with no character outside the Basic Multilingual Plane, `charCodeAt(k)` is the code of the k-th character and the length compared with 8 is the number of characters |
| JsString.AstralLonger | headless.js:147 | a character outside the Basic Multilingual Plane makes `length` exceed the number of characters, so `BmpLength` holds exactly for the strings it covers |
| JsString.LowerChar | headless.js:111 | an upper-case ASCII letter becomes the letter 32 code points above it, which is its lower-case form; every other character is kept |
| JsString.ToLower | headless.js:111 | a claimed word keeps its length; each upper-case ASCII letter becomes its lower-case letter (code + 32), every other character is kept, and no upper-case ASCII letter remains |
| JsString.ToLowerIdempotent | headless.js:111 | lower-casing an already lower-cased word changes nothing |
| JsString.Split | puppeteer.js:115 | splitting on line feeds gives one more entry than there are line feeds, and no entry contains a line feed |
| JsString.JoinSplit | puppeteer.js:115 | joining the entries with line feeds gives back the source text exactly, so the split loses and invents no characters |
| JsString.SplitJoin | puppeteer.js:115 | lines without line feeds, once joined with line feeds and split again, come back unchanged |
| JsString.ReplaceAll | headless.js:53 | every line feed becomes a comma, every other character is kept in place, and no line feed remains |
| JsString.SliceTo | headless.js:54 | `slice(0, end)` keeps a prefix; a negative end counts from the end and clamps at 0, so `slice(0, -1)` of an empty text is empty |
| SignHash.ToInt32 | headless.js:155 | `n &= n` gives the signed 32-bit value congruent to n modulo 2^32 |
| SignHash.ToInt32Congruent | headless.js:155 | numbers congruent modulo 2^32 reduce to the same signed 32-bit value |
| SignHash.ShiftLeft5 | headless.js:155 | `n << 5` is the signed 32-bit value congruent to 32·ToInt32(n), which is ToInt32(32·n) |
| SignHash.ShiftStepIsStep | headless.js:155 | the step `(n << 5) - n + c` followed by `n &= n` maps h to ToInt32(31·h + c) |
| SignHash.Hash | headless.js:152-157 | the loop returns the left-to-right fold of h ↦ ToInt32(31·h + c) over the string's UTF-16 code units, starting from the seed (42 by default); the result is always in [-2^31, 2^31) |
| SignHash.HashIsPolynomial | headless.js:152-156 | the hash equals seed·31^n + Σ c_i·31^(n-i), computed in exact integers and reduced to signed 32 bits once at the end |
| SignHash.HashOfEmpty | headless.js:152-156 | with the default seed, the empty string hashes to 42 |
| Framing.Frame | headless.js:52-54 | the framed text starts with `[`, ends with `]`, contains no line feed, and is one character longer than the response (exactly `[]` for an empty response) |
| Framing.CommasOfTerminated | puppeteer.js:37 | for newline-terminated lines, replacing line feeds gives the lines joined by commas plus one trailing comma |
| Framing.FrameOfLines | puppeteer.js:37-38 | a response of lines l1 … ln, each ending in a line feed, frames to `[l1,…,ln]`, and an empty response frames to `[]` |
| Ranking.Unregistered | headless.js:61 | exactly the unregistered records are kept, each as often as it occurs in the response |
| Ranking.Insert | headless.js:62 | inserting adds exactly the one record to the sequence |
| Ranking.InsertDescending | headless.js:62 | inserting a record into a sequence of non-increasing rank keeps the ranks non-increasing |
| Ranking.SortByRank | puppeteer.js:46 | the comparator `b.rank - a.rank` yields a permutation of the records with ranks non-increasing |
| Ranking.TldsOf | headless.js:63 | the projection keeps one TLD per record, in the same order |
| Ranking.RankedTlds | headless.js:61-63 | the result is the TLDs of some arrangement of exactly the unregistered records in which ranks never increase |
| Ranking.RankedTldsLength | puppeteer.js:45-47 | there is exactly one TLD per unregistered record |
| Ranking.RankedTldsOnlyUnregistered | headless.js:61-63 | every returned TLD is named by some unregistered record |
| Ranking.RankedTldsAllUnregistered | headless.js:61-63 | the TLD of every unregistered record is returned |
| Ranking.RankedTldsMembers | puppeteer.js:45-47 | a TLD is returned if and only if some unregistered record names it, so a TLD named only by registered records is never returned |
| Dictionary.ShortWords | headless.js:147 | a word is kept if and only if it is shorter than 8 UTF-16 code units; each short word occurs as often as in the input and each long word not at all, and the kept words keep their relative order |
| Dictionary.HeadlessDictionary | headless.js:147 | every dictionary entry is shorter than 8 code units and contains no line feed; each short line of the file occurs as often as in the file and each long line not at all, in file order |
| Ledgers.Load | puppeteer.js:60-71 | without an output file the run starts from the empty skeleton, with both maps empty; otherwise it starts from the stored ledger |
| Ledgers.ParsedWords | headless.js:90 | `Object.keys` lists every word of the ledger exactly once |
| Ledgers.ComWords | headless.js:131 | the `com` index when the ledger has one, and the empty list when it has none |
| Ledgers.Record | headless.js:128-134 | after a commit the word maps to the first min(K, n) resolved TLDs, and every other word keeps its entry; the word is appended to the `com` index exactly when `com` occurs in the full list; the index is created if absent; other TLD keys are unchanged |
| Ledgers.RecordKeepsIndexKnown | headless.js:129-134 | a commit keeps every word in the `com` index a key of `availableDomains` |
| Ledgers.RecordKeepsStoredWithin | puppeteer.js:96 | a commit never stores more than K TLDs for a word, however many the lookup returned |
| Ledgers.ComIndexedBeyondStoredPrefix | headless.js:128-134 | a word can be indexed under `com` while `com` is not in its stored two-entry list |
| Ledgers.RecordCommutes | headless.js:124-135 | two commits of different words lose neither update; their order changes only the order of the `com` index |
| Ledgers.RecordTwice | puppeteer.js:92-103 | committing a word a second time stores the same TLDs and appends the word to the `com` index a second time; duplicates are not removed |
| Headless.Left | headless.js:91 | "left to parse" is positive if and only if the dictionary has more entries than the ledger has words, and never exceeds the dictionary length |
| Headless.FreshStartStopsOnlyWhenEmpty | headless.js:79-96 | without an output file, the run stops at startup if and only if the dictionary is empty |
| Headless.StopsWhenAllResolved | headless.js:89-96 | a resumed run whose distinct dictionary entries are all in the ledger stops at startup |
| Headless.StopsWithoutResolvingWords | headless.js:90-96 | the check compares counts: a ledger holding as many unrelated words stops the run with dictionary words unresolved |
| Headless.AtStop | headless.js:111-112 | a claim can proceed only at a present, non-empty entry; inside the list, a stop is an empty entry |
| Headless.StopIndex | headless.js:111-117 | the cursor comes to rest at the end of the list or at the first empty entry, whichever comes first |
| Headless.Resolved | headless.js:120-136 | committing claimed words in order, each only when it is not yet in the ledger: the ledger gains exactly those words as keys, keeps every earlier word's entry, and stores for each new word the first two TLDs of its lookup |
| Headless.ResolvedKeepsIndexKnown | headless.js:128-134 | a run of commits keeps every word of the `com` index a key of `availableDomains` |
| Headless.ResolvedKnownWords | headless.js:120 | claims of words that are all in the ledger already commit nothing |
| Headless.Start | headless.js:79-96 | no worker starts if and only if the dictionary length minus the number of ledger keys is at most 0; otherwise a scanner starts at cursor 0 over the loaded ledger |
| Headless.Scanner.constructor | headless.js:89-90 | the cursor starts at 0, the list is not yet parsed, and `parsedWords` holds exactly the ledger's words |
| Headless.Scanner.Claim | headless.js:109-120 | a present, non-empty entry is handed out lower-cased and non-empty, and the cursor advances by exactly one; otherwise the cursor stays, `isFullParsed` becomes true, and the log line is due only the first time; the word needs resolving if and only if it is not in `parsedWords`; indices are handed out in order, each at most once; the ledger is untouched |
| Headless.Scanner.Commit | headless.js:124-135 | `parsedWords` gains the word and the ledger becomes `Record` with two kept TLDs; cursor and flags are unchanged; `parsedWords` and the ledger keys stay the same set |
| Headless.Scanner.Drain | headless.js:110-138 | one worker stops at the first empty entry or the end, with the list marked parsed; the new ledger is `Resolved` over the lower-cased words it passed: its keys are the old keys plus those words, old entries are unchanged, each new word stores the first two TLDs of its lookup, and if all the passed words were already there the ledger is unchanged |
| Puppeteer.EntryAt | puppeteer.js:86 | `words[i]` is the entry at i, or undefined (`None`) past the end |
| Puppeteer.Scanner.constructor | puppeteer.js:60-71 | the cursor starts at 0 over the stored ledger, or over the empty skeleton when there is none, and `parsedWords` holds exactly its words |
| Puppeteer.Scanner.Claim | puppeteer.js:84-88 | every claim reads `words[i]` and advances the cursor by exactly one, with no end-of-list check; the value needs resolving unless it is a word already in `parsedWords`; the ledger is untouched |
| Puppeteer.Scanner.Commit | puppeteer.js:92-103 | `parsedWords` gains the word and the ledger becomes `Record` with three kept TLDs; `parsedWords` and the ledger keys stay the same set |

## Behaviour worth knowing

- The ledger does not keep "every word indexed under a TLD has that TLD in its
  stored list". The `com` index is fed from the full resolved list, but only the
  first 2 or 3 TLDs are stored, so an indexed word need not have `com` in its
  stored list (`Ledgers.ComIndexedBeyondStoredPrefix`). What every commit does
  keep is that each indexed word has an entry (`Ledgers.RecordKeepsIndexKnown`,
  `Headless.ResolvedKeepsIndexKnown`).
- The `com` index is a list, not a set: a word committed twice appears in it
  twice (`Ledgers.RecordTwice`).
- The headless startup check compares two counts, the dictionary length and the
  number of ledger words, not the words themselves. A ledger holding as many
  unrelated words stops the run with dictionary words unresolved
  (`Headless.StopsWithoutResolvingWords`).
- In `headless.js` the workers stop at the first empty entry, not only at the end
  of the list. The cursor does not move past an empty string, so the words after
  a blank line are never claimed (`Headless.StopIndex`).
- `puppeteer.js` has no end-of-list check. Past the end, a claim yields
  `undefined` and the cursor still advances (`Puppeteer.Scanner.Claim`).
- In `hash`, line 153 never fires: a parameter default replaces `undefined`
  before that line runs. A call without a seed therefore uses 42.

## Left out

- The lookup transport is left out because it is foreign I/O. That covers `node-fetch`, the request URL and headers, the hover.com `.com` double-check (headless.js:17-32), and Puppeteer's page driving and `waitForResponse` (puppeteer.js:11-40). The resolved TLD list is a parameter instead.
- The retry in `parseDomain` (headless.js:70-73, puppeteer.js:52-54) recurses without bound until a lookup succeeds. It is left out; the resolved list is taken as given.
- `JSON.parse` of the framed text is left out. The model stops at the framed string.
- The file round-trip is left out: `existsSync`, `readFileSync` and `writeFileSync` of the source file and the ledger, plus `JSON.stringify`. The ledger is an in-memory value. A stored ledger is `Some(ledger)` and a missing file is `None`.
- The N fire-and-forget workers (headless.js:140-142, puppeteer.js:108-110) are left out as concurrency. Their interleavings are sequences of `Claim` and `Commit` calls. `Headless.Scanner.Drain` models a single worker.
- Also left out: SIGINT handling (puppeteer.js:12), console logging and the "Full list parsed" message. The `announce` field of a claim marks when that message is due.
- A puppeteer worker that claims past the end goes on to resolve `undefined` in code this model does not see. The model returns `None` and goes no further. For that reason there is no puppeteer counterpart of `Drain`.
- The key order of `Object.keys` is not modelled: `Ledgers.ParsedWords` lists the ledger's words in some order, because the scripts only test membership in that list.
- Ranks are integers here. The JavaScript comparator also accepts fractional ranks.
- JsString.ToLower: lower-cases only the ASCII letters A to Z. JavaScript's full Unicode case mapping is not modelled.
- SignHash.Hash: the seed is limited to signed 32-bit integers. A seed that is fractional or outside that range is not modelled; no caller passes a seed.
- Framing.Frame: works on Unicode characters. When the response ends in a character outside the Basic Multilingual Plane, JavaScript's `slice` would drop only half of its surrogate pair; that case is not modelled.
- Ranking.SortByRank: JavaScript's sort is stable, and `Insert` keeps earlier records first among equal ranks, but no contract states that tie order.
