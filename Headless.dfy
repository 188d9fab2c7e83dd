/** The work loop of headless.js: the startup check against the stored ledger,
    and the shared cursor that the workers claim dictionary words from before
    committing each resolved word to the ledger. Each claim and each commit runs
    with no `await` inside it, so on Node's single event loop it is one atomic
    step; the workers' interleaving is any sequence of calls to `Claim` and
    `Commit`. */
module Headless {
  import opened JsString
  import opened Ledgers

  /** How many TLDs are stored per word. */
  const KeptTlds: nat := 2

  /** "Left to parse": dictionary entries minus words already in the ledger. It
      is positive exactly when the dictionary has more entries than the ledger
      has words. */
  function Left(dictionary: seq<string>, ledger: Ledger): (left: int)
    ensures left > 0 <==> |dictionary| > |ledger.availableDomains.Keys|
    ensures left <= |dictionary|
  {
    |dictionary| - |ledger.availableDomains.Keys|
  }

  /** The run ends at startup, before any worker starts, when nothing is left. */
  predicate StopsAtStartup(dictionary: seq<string>, stored: Option<Ledger>)
  {
    Left(dictionary, Load(stored)) <= 0
  }

  /** Without an output file the run stops at once only for an empty dictionary. */
  lemma FreshStartStopsOnlyWhenEmpty(dictionary: seq<string>)
    ensures StopsAtStartup(dictionary, None) <==> dictionary == []
  {
  }

  lemma {:induction false} DistinctEntriesCount(s: seq<string>)
    requires forall i, j | 0 <= i < j < |s| :: s[i] != s[j]
    ensures |set k | 0 <= k < |s| :: s[k]| == |s|
  {
    if s != [] {
      var init := s[..|s| - 1];
      DistinctEntriesCount(init);
      var before := set k | 0 <= k < |init| :: init[k];
      var after := set k | 0 <= k < |s| :: s[k];
      assert after == before + {s[|s| - 1]};
      assert s[|s| - 1] !in before;
    }
  }

  lemma {:induction false} SubsetCount(a: set<string>, b: set<string>)
    requires a <= b
    ensures |a| <= |b|
  {
    if a != {} {
      var x :| x in a;
      SubsetCount(a - {x}, b - {x});
    }
  }

  /** A resumed run whose distinct dictionary entries are all in the ledger
      already stops at startup. */
  lemma {:induction false} StopsWhenAllResolved(dictionary: seq<string>, ledger: Ledger)
    requires forall i, j | 0 <= i < j < |dictionary| :: dictionary[i] != dictionary[j]
    requires forall k | 0 <= k < |dictionary| :: dictionary[k] in ledger.availableDomains
    ensures StopsAtStartup(dictionary, Some(ledger))
  {
    DistinctEntriesCount(dictionary);
    SubsetCount(set k | 0 <= k < |dictionary| :: dictionary[k], ledger.availableDomains.Keys);
  }

  /** The check compares counts, not words: a ledger holding as many other words
      stops the run although no dictionary word was resolved. */
  lemma StopsWithoutResolvingWords()
    ensures var ledger := Ledger(map[], map["zzz" := []]);
      StopsAtStartup(["abc"], Some(ledger)) && "abc" !in ledger.availableDomains
  {
    var ledger := Ledger(map[], map["zzz" := []]);
    assert ledger.availableDomains.Keys == {"zzz"};
  }

  /** The cursor stops at `i`: the end of the list, or an empty entry (an empty
      string is falsy, so no worker gets past it). */
  predicate AtStop(dictionary: seq<string>, i: nat)
    ensures !AtStop(dictionary, i) ==> i < |dictionary| && |dictionary[i]| > 0
    ensures i < |dictionary| && AtStop(dictionary, i) ==> dictionary[i] == []
  {
    i >= |dictionary| || dictionary[i] == ""
  }

  /** Where the cursor comes to rest when the workers start claiming at `i`. */
  function StopIndex(dictionary: seq<string>, i: nat): (s: nat)
    requires i <= |dictionary|
    ensures i <= s <= |dictionary| && AtStop(dictionary, s)
    ensures forall k | i <= k < s :: !AtStop(dictionary, k)
    decreases |dictionary| - i
  {
    if AtStop(dictionary, i) then i else StopIndex(dictionary, i + 1)
  }

  /** The lower-cased dictionary entries from index `from` up to `to`: the words
      the claims over that range hand out, in order. */
  function ClaimedWords(dictionary: seq<string>, from: nat, to: nat): seq<string>
    requires from <= to <= |dictionary|
  {
    seq(to - from, k requires 0 <= k < to - from => ToLower(dictionary[from + k]))
  }

  /** The ledger after each of `words`, in order, is committed with the TLDs
      `resolve` gives it, unless it is already in the ledger when claimed. */
  function Resolved(ledger: Ledger, words: seq<string>, resolve: string -> seq<string>): (r: Ledger)
    ensures r.availableDomains.Keys == ledger.availableDomains.Keys + (set k | 0 <= k < |words| :: words[k])
    ensures forall w | w in ledger.availableDomains :: r.availableDomains[w] == ledger.availableDomains[w]
    ensures forall w | w in r.availableDomains && w !in ledger.availableDomains ::
      r.availableDomains[w] == SliceTo(resolve(w), KeptTlds)
    decreases |words|
  {
    if words == [] then ledger
    else
      var init := words[..|words| - 1];
      var w := words[|words| - 1];
      var before := Resolved(ledger, init, resolve);
      var all := set k | 0 <= k < |words| :: words[k];
      assert all == (set k | 0 <= k < |init| :: init[k]) + {w} by {
        forall x | x in all
          ensures x in (set k | 0 <= k < |init| :: init[k]) + {w}
        {
          var k :| 0 <= k < |words| && words[k] == x;
          if k < |init| {
            assert init[k] == x;
          }
        }
      }
      if w in before.availableDomains then before
      else
        var after := Record(before, w, resolve(w), KeptTlds);
        assert after.availableDomains[w] == SliceTo(resolve(w), KeptTlds);
        after
  }

  /** Resolving words keeps every word of the `com` index a key of the ledger. */
  lemma {:induction false} ResolvedKeepsIndexKnown(ledger: Ledger, words: seq<string>, resolve: string -> seq<string>)
    requires IndexKnown(ledger)
    ensures IndexKnown(Resolved(ledger, words, resolve))
    decreases |words|
  {
    if words != [] {
      var init := words[..|words| - 1];
      var w := words[|words| - 1];
      ResolvedKeepsIndexKnown(ledger, init, resolve);
      var before := Resolved(ledger, init, resolve);
      if w !in before.availableDomains {
        RecordKeepsIndexKnown(before, w, resolve(w), KeptTlds);
      }
    }
  }

  /** Resolving words that are all in the ledger already changes nothing. */
  lemma {:induction false} ResolvedKnownWords(ledger: Ledger, words: seq<string>, resolve: string -> seq<string>)
    requires forall k | 0 <= k < |words| :: words[k] in ledger.availableDomains
    ensures Resolved(ledger, words, resolve) == ledger
    decreases |words|
  {
    if words != [] {
      var init := words[..|words| - 1];
      assert forall k | 0 <= k < |init| :: init[k] == words[k];
      ResolvedKnownWords(ledger, init, resolve);
    }
  }

  /** One more claim extends the claimed words by the next lower-cased entry, and
      the resolved ledger by its commit when the word is new. */
  lemma ClaimedWordsStep(dictionary: seq<string>, from: nat, to: nat, ledger: Ledger, resolve: string -> seq<string>)
    requires from <= to < |dictionary|
    ensures var before := Resolved(ledger, ClaimedWords(dictionary, from, to), resolve);
      var w := ToLower(dictionary[to]);
      Resolved(ledger, ClaimedWords(dictionary, from, to + 1), resolve) ==
        if w in before.availableDomains then before else Record(before, w, resolve(w), KeptTlds)
  {
    var words := ClaimedWords(dictionary, from, to + 1);
    var prefix := ClaimedWords(dictionary, from, to);
    assert |words| == |prefix| + 1;
    assert words[..|words| - 1] == prefix by {
      forall k | 0 <= k < |prefix| ensures words[k] == prefix[k] {
      }
    }
    assert words[|words| - 1] == ToLower(dictionary[to]);
  }

  /** The claimed words, as a set, are the lower-cased entries of the range. */
  lemma ClaimedWordsSet(dictionary: seq<string>, from: nat, to: nat)
    requires from <= to <= |dictionary|
    ensures var words := ClaimedWords(dictionary, from, to);
      (set k | 0 <= k < |words| :: words[k]) == (set k | from <= k < to :: ToLower(dictionary[k]))
  {
    var words := ClaimedWords(dictionary, from, to);
    var entries := set k | from <= k < to :: ToLower(dictionary[k]);
    forall x | x in entries
      ensures x in (set k | 0 <= k < |words| :: words[k])
    {
      var k :| from <= k < to && ToLower(dictionary[k]) == x;
      assert words[k - from] == x;
    }
  }

  /** What a claim hands a worker: nothing (and whether this is the first time the
      end was seen, when "Full list parsed" is logged), or the lower-cased word and
      whether it still has to be resolved. */
  datatype ClaimOutcome = Exhausted(announce: bool) | Claimed(word: string, toResolve: bool)

  class Scanner {
    const dictionary: seq<string>
    var i: nat
    var isFullParsed: bool
    var parsedWords: seq<string>
    var ledger: Ledger
    /** The dictionary indices handed out so far, in the order they were handed out. */
    ghost var handedOut: seq<nat>

    ghost predicate Valid()
      reads this
    {
      i <= |dictionary| &&
      (isFullParsed ==> AtStop(dictionary, i)) &&
      |handedOut| == i && (forall k | 0 <= k < i :: handedOut[k] == k) &&
      (forall w :: w in parsedWords <==> w in ledger.availableDomains)
    }

    /** The state the workers start from: cursor at 0, the ledger loaded (the
        skeleton when there was no output file) and its words as `parsedWords`. */
    constructor (dictionary: seq<string>, stored: Option<Ledger>)
      ensures Valid()
      ensures this.dictionary == dictionary && ledger == Load(stored)
      ensures i == 0 && !isFullParsed && handedOut == []
      ensures |parsedWords| == |ledger.availableDomains.Keys|
    {
      var loaded := Load(stored);
      var words := ParsedWords(loaded);
      this.dictionary := dictionary;
      i := 0;
      isFullParsed := false;
      parsedWords := words;
      ledger := loaded;
      handedOut := [];
    }

    /** The claim step of `enqueueNext`: read `dictionary[i]`; on a present,
        non-empty entry hand out its lower-cased form and advance the cursor by
        one, otherwise leave the cursor where it is and mark the list parsed. */
    method Claim() returns (c: ClaimOutcome)
      requires Valid()
      modifies this
      ensures Valid()
      ensures ledger == old(ledger) && parsedWords == old(parsedWords)
      ensures !AtStop(dictionary, old(i)) ==>
        var word := ToLower(dictionary[old(i)]);
        c == Claimed(word, word !in parsedWords) && word != "" &&
        i == old(i) + 1 && handedOut == old(handedOut) + [old(i)] &&
        isFullParsed == old(isFullParsed)
      ensures AtStop(dictionary, old(i)) ==>
        c == Exhausted(!old(isFullParsed)) &&
        i == old(i) && handedOut == old(handedOut) && isFullParsed
    {
      if AtStop(dictionary, i) {
        c := Exhausted(!isFullParsed);
        isFullParsed := true;
      } else {
        var word := ToLower(dictionary[i]);
        c := Claimed(word, word !in parsedWords);
        handedOut := handedOut + [i];
        i := i + 1;
      }
    }

    /** The commit step of `enqueueNext` once `tldList` is resolved: remember the
        word, store its first two TLDs and index it under `com` when the full list
        has `com`. */
    method Commit(word: string, tldList: seq<string>)
      requires Valid()
      modifies this
      ensures Valid()
      ensures parsedWords == old(parsedWords) + [word]
      ensures ledger == Record(old(ledger), word, tldList, KeptTlds)
      ensures i == old(i) && isFullParsed == old(isFullParsed) && handedOut == old(handedOut)
    {
      parsedWords := parsedWords + [word];
      ledger := Record(ledger, word, tldList, KeptTlds);
    }

    /** One worker running `enqueueNext` until the list is exhausted, with `resolve`
        standing for the lookup. */
    method Drain(resolve: string -> seq<string>)
      requires Valid()
      modifies this
      ensures Valid() && isFullParsed
      ensures i == StopIndex(dictionary, old(i))
      ensures ledger == Resolved(old(ledger), ClaimedWords(dictionary, old(i), i), resolve)
      ensures ledger.availableDomains.Keys ==
        old(ledger.availableDomains).Keys + (set k | old(i) <= k < i :: ToLower(dictionary[k]))
      ensures forall w | w in old(ledger.availableDomains) ::
        ledger.availableDomains[w] == old(ledger.availableDomains)[w]
      ensures forall w | w in ledger.availableDomains && w !in old(ledger.availableDomains) ::
        ledger.availableDomains[w] == SliceTo(resolve(w), KeptTlds)
      ensures (forall k | old(i) <= k < i :: ToLower(dictionary[k]) in old(ledger.availableDomains)) ==>
        ledger == old(ledger)
    {
      var stop := StopIndex(dictionary, i);
      var done := false;
      while !done
        invariant Valid()
        invariant old(i) <= i <= stop
        invariant done ==> isFullParsed && i == stop
        invariant ledger == Resolved(old(ledger), ClaimedWords(dictionary, old(i), i), resolve)
        decreases stop - i, if done then 0 else 1
      {
        ghost var at := i;
        ghost var prev := ledger;
        var c := Claim();
        match c
        case Exhausted(_) =>
          assert i == at && ledger == prev;
          done := true;
        case Claimed(word, toResolve) =>
          assert !AtStop(dictionary, at) && at < stop;
          assert word == ToLower(dictionary[at]) && (toResolve <==> word !in prev.availableDomains);
          ClaimedWordsStep(dictionary, old(i), at, old(ledger), resolve);
          if toResolve {
            Commit(word, resolve(word));
            assert ledger == Record(prev, word, resolve(word), KeptTlds);
          } else {
            assert ledger == prev;
          }
          assert i == at + 1;
          assert ledger == Resolved(old(ledger), ClaimedWords(dictionary, old(i), at + 1), resolve);
      }
      ClaimedWordsSet(dictionary, old(i), i);
      if forall k | old(i) <= k < i :: ToLower(dictionary[k]) in old(ledger.availableDomains) {
        ResolvedKnownWords(old(ledger), ClaimedWords(dictionary, old(i), i), resolve);
      }
    }
  }

  /** Startup of `parseDictionary`: no scanner when nothing is left to parse,
      otherwise a scanner over the loaded ledger. */
  method Start(dictionary: seq<string>, stored: Option<Ledger>) returns (scanner: Scanner?)
    ensures scanner == null <==> StopsAtStartup(dictionary, stored)
    ensures scanner != null ==>
      fresh(scanner) && scanner.Valid() && scanner.dictionary == dictionary &&
      scanner.ledger == Load(stored) && scanner.i == 0 && !scanner.isFullParsed
  {
    var loaded := Load(stored);
    if Left(dictionary, loaded) <= 0 {
      scanner := null;
    } else {
      scanner := new Scanner(dictionary, stored);
    }
  }
}
