/** The ledger both scripts keep in their output file: the TLDs found for each
    word, and an index of the words whose `.com` is free. The file round-trip is
    modelled as an in-memory value. */
module Ledgers {
  import opened JsString

  datatype Ledger = Ledger(availableTld: map<string, seq<string>>, availableDomains: map<string, seq<string>>)

  const ComTld: string := "com"

  /** The ledger written when no output file exists yet. */
  const Skeleton: Ledger := Ledger(map[], map[])

  /** The ledger a run starts from: the stored one, or the empty skeleton when
      there is no output file. */
  function Load(stored: Option<Ledger>): (ledger: Ledger)
    ensures stored.None? ==> ledger.availableTld == map[] && ledger.availableDomains == map[]
    ensures stored.Some? ==> ledger == stored.value
  {
    if stored.Some? then stored.value else Skeleton
  }

  /** `Object.keys(parsed.availableDomains)`: every word of the ledger, once each,
      in some order. */
  method ParsedWords(ledger: Ledger) returns (words: seq<string>)
    ensures forall w :: w in words <==> w in ledger.availableDomains
    ensures |words| == |ledger.availableDomains.Keys|
  {
    var rest := ledger.availableDomains.Keys;
    words := [];
    while rest != {}
      invariant rest <= ledger.availableDomains.Keys
      invariant forall w :: w in words <==> w in ledger.availableDomains && w !in rest
      invariant |words| + |rest| == |ledger.availableDomains.Keys|
      decreases |rest|
    {
      var w :| w in rest;
      words := words + [w];
      rest := rest - {w};
    }
  }

  /** `allData.availableTld.com || []`: the words indexed under `com`, and the
      empty list when the ledger has no `com` index yet. */
  function ComWords(ledger: Ledger): (words: seq<string>)
    ensures ComTld in ledger.availableTld ==> words == ledger.availableTld[ComTld]
    ensures ComTld !in ledger.availableTld ==> words == []
  {
    if ComTld in ledger.availableTld then ledger.availableTld[ComTld] else []
  }

  function Min(a: int, b: int): int
  {
    if a < b then a else b
  }

  /** The effect of one commit on the ledger: `word` maps to the first `keep` TLDs
      of the resolved list, and `word` is appended to the `com` index when `com`
      is anywhere in the full list. */
  function Record(ledger: Ledger, word: string, tldList: seq<string>, keep: nat): (r: Ledger)
    ensures r.availableDomains.Keys == ledger.availableDomains.Keys + {word}
    ensures r.availableDomains[word] <= tldList
    ensures |r.availableDomains[word]| == Min(keep, |tldList|)
    ensures forall w | w in ledger.availableDomains && w != word ::
      r.availableDomains[w] == ledger.availableDomains[w]
    ensures ComTld in r.availableTld <==> ComTld in ledger.availableTld || ComTld in tldList
    ensures ComWords(r) == if ComTld in tldList then ComWords(ledger) + [word] else ComWords(ledger)
    ensures forall t | t in ledger.availableTld && t != ComTld :: t in r.availableTld && r.availableTld[t] == ledger.availableTld[t]
    ensures forall t | t in r.availableTld && t != ComTld :: t in ledger.availableTld
  {
    var tlds := if ComTld in tldList then ledger.availableTld[ComTld := ComWords(ledger) + [word]]
                else ledger.availableTld;
    Ledger(tlds, ledger.availableDomains[word := SliceTo(tldList, keep)])
  }

  /** Every word in the `com` index has an entry of its own. */
  ghost predicate IndexKnown(ledger: Ledger)
  {
    forall w | w in ComWords(ledger) :: w in ledger.availableDomains
  }

  /** No stored TLD list is longer than `keep`. */
  ghost predicate StoredWithin(ledger: Ledger, keep: nat)
  {
    forall w | w in ledger.availableDomains :: |ledger.availableDomains[w]| <= keep
  }

  /** A commit keeps every indexed word known. */
  lemma RecordKeepsIndexKnown(ledger: Ledger, word: string, tldList: seq<string>, keep: nat)
    requires IndexKnown(ledger)
    ensures IndexKnown(Record(ledger, word, tldList, keep))
  {
  }

  /** A commit never stores more than `keep` TLDs for a word. */
  lemma RecordKeepsStoredWithin(ledger: Ledger, word: string, tldList: seq<string>, keep: nat)
    requires StoredWithin(ledger, keep)
    ensures StoredWithin(Record(ledger, word, tldList, keep), keep)
  {
  }

  /** The `com` index follows the full resolved list, not the stored prefix: a
      word can be indexed under `com` although its stored TLDs do not hold `com`. */
  lemma ComIndexedBeyondStoredPrefix()
    ensures var r := Record(Skeleton, "abc", ["net", "org", "com"], 2);
      "abc" in ComWords(r) && ComTld !in r.availableDomains["abc"]
  {
    var r := Record(Skeleton, "abc", ["net", "org", "com"], 2);
    assert r.availableDomains["abc"] == ["net", "org"];
  }

  /** Two commits of different words lose neither update, and their order only
      changes the order of the `com` index. */
  lemma RecordCommutes(ledger: Ledger, w1: string, t1: seq<string>, w2: string, t2: seq<string>, keep: nat)
    requires w1 != w2
    ensures var a := Record(Record(ledger, w1, t1, keep), w2, t2, keep);
            var b := Record(Record(ledger, w2, t2, keep), w1, t1, keep);
            a.availableDomains == b.availableDomains &&
            a.availableDomains[w1] == Record(ledger, w1, t1, keep).availableDomains[w1] &&
            a.availableDomains[w2] == Record(ledger, w2, t2, keep).availableDomains[w2] &&
            multiset(ComWords(a)) == multiset(ComWords(b))
  {
  }

  /** Committing the same word twice stores the same TLDs, but indexes the word
      under `com` a second time when `com` was found. */
  lemma RecordTwice(ledger: Ledger, word: string, tldList: seq<string>, keep: nat)
    ensures var once := Record(ledger, word, tldList, keep);
            var twice := Record(once, word, tldList, keep);
            twice.availableDomains == once.availableDomains &&
            ComWords(twice) == ComWords(once) + (if ComTld in tldList then [word] else [])
  {
  }
}
