/** The work loop of puppeteer.js. It differs from headless.js in three ways:
    the dictionary is the plain line split, a claim reads `words[i]` and advances
    the cursor with no end-of-list check, and three TLDs are stored per word.
    As in headless.js, each claim and each commit is one atomic step. */
module Puppeteer {
  import opened JsString
  import opened Ledgers

  /** How many TLDs are stored per word. */
  const KeptTlds: nat := 3

  /** `words[i]`: the entry, or `undefined` past the end. */
  function EntryAt(words: seq<string>, i: nat): (current: Option<string>)
    ensures current.Some? <==> i < |words|
    ensures current.Some? ==> current.value == words[i]
  {
    if i < |words| then Some(words[i]) else None
  }

  class Scanner {
    const words: seq<string>
    var i: nat
    var parsedWords: seq<string>
    var ledger: Ledger
    /** The indices handed out so far, in the order they were handed out. */
    ghost var handedOut: seq<nat>

    ghost predicate Valid()
      reads this
    {
      |handedOut| == i && (forall k | 0 <= k < i :: handedOut[k] == k) &&
      (forall w :: w in parsedWords <==> w in ledger.availableDomains)
    }

    /** The state once the threads are set up: cursor at 0, the ledger loaded
        (the skeleton when there was no output file) and its words as `parsedWords`. */
    constructor (words: seq<string>, stored: Option<Ledger>)
      ensures Valid()
      ensures this.words == words && ledger == Load(stored)
      ensures stored.None? ==> ledger.availableTld == map[] && ledger.availableDomains == map[]
      ensures i == 0 && handedOut == []
      ensures |parsedWords| == |ledger.availableDomains.Keys|
    {
      var loaded := Load(stored);
      var keys := ParsedWords(loaded);
      this.words := words;
      i := 0;
      parsedWords := keys;
      ledger := loaded;
      handedOut := [];
    }

    /** The claim step of `enqueueNext`: read `words[i]` and advance the cursor by
        exactly one, even past the end; the claimed value has to be resolved unless
        it is a word already in `parsedWords` (`undefined` never is). */
    method Claim() returns (current: Option<string>, toResolve: bool)
      requires Valid()
      modifies this
      ensures Valid()
      ensures current == EntryAt(words, old(i))
      ensures toResolve <==> current.None? || current.value !in parsedWords
      ensures i == old(i) + 1 && handedOut == old(handedOut) + [old(i)]
      ensures ledger == old(ledger) && parsedWords == old(parsedWords)
    {
      current := EntryAt(words, i);
      toResolve := current.None? || current.value !in parsedWords;
      handedOut := handedOut + [i];
      i := i + 1;
    }

    /** The commit step of `enqueueNext` once `tldList` is resolved: remember the
        word, store its first three TLDs and index it under `com` when the full
        list has `com`. */
    method Commit(word: string, tldList: seq<string>)
      requires Valid()
      modifies this
      ensures Valid()
      ensures parsedWords == old(parsedWords) + [word]
      ensures ledger == Record(old(ledger), word, tldList, KeptTlds)
      ensures i == old(i) && handedOut == old(handedOut)
    {
      parsedWords := parsedWords + [word];
      ledger := Record(ledger, word, tldList, KeptTlds);
    }
  }
}
