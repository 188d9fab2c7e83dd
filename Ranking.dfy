/** What `parseDomain` keeps of a lookup response: the records of unregistered
    TLDs, sorted by rank from highest to lowest, reduced to their TLD names. */
module Ranking {

  /** One record of the lookup response. */
  datatype DomainRecord = DomainRecord(tld: string, isRegistered: bool, rank: int)

  /** Ranks never increase from one record to the next. */
  ghost predicate Descending(rs: seq<DomainRecord>)
  {
    forall i, j | 0 <= i < j < |rs| :: rs[i].rank >= rs[j].rank
  }

  /** `details.filter((el) => !el.isRegistered)`. */
  function Unregistered(details: seq<DomainRecord>): (kept: seq<DomainRecord>)
    ensures forall d :: multiset(kept)[d] == if d.isRegistered then 0 else multiset(details)[d]
    ensures forall d :: d in kept <==> d in details && !d.isRegistered
  {
    if details == [] then []
    else
      assert details == [details[0]] + details[1..];
      (if details[0].isRegistered then [] else [details[0]]) + Unregistered(details[1..])
  }

  /** Puts `x` in front of the first record whose rank is not above its own, so
      that among equal ranks the earlier record stays first. */
  function Insert(x: DomainRecord, rs: seq<DomainRecord>): (r: seq<DomainRecord>)
    ensures multiset(r) == multiset(rs) + multiset{x}
    ensures forall y :: y in r <==> y == x || y in rs
  {
    if rs == [] || x.rank >= rs[0].rank then [x] + rs
    else
      assert rs == [rs[0]] + rs[1..];
      [rs[0]] + Insert(x, rs[1..])
  }

  /** Inserting into a descending sequence keeps it descending. */
  lemma {:induction false} InsertDescending(x: DomainRecord, rs: seq<DomainRecord>)
    requires Descending(rs)
    ensures Descending(Insert(x, rs))
  {
    var r := Insert(x, rs);
    if rs == [] || x.rank >= rs[0].rank {
      assert r == [x] + rs;
      forall i, j | 0 <= i < j < |r| ensures r[i].rank >= r[j].rank {
        if i == 0 {
          assert r[j] == rs[j - 1];
        } else {
          assert r[i] == rs[i - 1] && r[j] == rs[j - 1];
        }
      }
    } else {
      var rest := Insert(x, rs[1..]);
      assert r == [rs[0]] + rest;
      InsertDescending(x, rs[1..]);
      forall k | 0 <= k < |rest| ensures rs[0].rank >= rest[k].rank {
        var y := rest[k];
        assert y in rest;
        if y != x {
          var j :| 0 <= j < |rs[1..]| && rs[1..][j] == y;
          assert rs[j + 1] == y;
        }
      }
      forall i, j | 0 <= i < j < |r| ensures r[i].rank >= r[j].rank {
        if i == 0 {
          assert r[j] == rest[j - 1];
        } else {
          assert r[i] == rest[i - 1] && r[j] == rest[j - 1];
        }
      }
    }
  }

  /** `available.sort((a, b) => b.rank - a.rank)`, a stable sort on descending rank. */
  function SortByRank(rs: seq<DomainRecord>): (sorted: seq<DomainRecord>)
    ensures multiset(sorted) == multiset(rs)
    ensures forall y :: y in sorted <==> y in rs
    ensures Descending(sorted)
  {
    if rs == [] then []
    else
      assert rs == [rs[0]] + rs[1..];
      var rest := SortByRank(rs[1..]);
      InsertDescending(rs[0], rest);
      Insert(rs[0], rest)
  }

  /** `sorted.map((el) => el.tld)`. */
  function TldsOf(rs: seq<DomainRecord>): (tlds: seq<string>)
    ensures |tlds| == |rs|
    ensures forall k | 0 <= k < |rs| :: tlds[k] == rs[k].tld
  {
    seq(|rs|, k requires 0 <= k < |rs| => rs[k].tld)
  }

  /** The TLD list `parseDomain` returns: the unregistered records in some order
      of non-increasing rank, one TLD per record. */
  function RankedTlds(details: seq<DomainRecord>): (tlds: seq<string>)
    ensures exists rs :: Descending(rs) && multiset(rs) == multiset(Unregistered(details)) && tlds == TldsOf(rs)
  {
    var rs := SortByRank(Unregistered(details));
    assert Descending(rs) && multiset(rs) == multiset(Unregistered(details));
    TldsOf(rs)
  }

  /** The output has exactly as many entries as there are unregistered records. */
  lemma RankedTldsLength(details: seq<DomainRecord>)
    ensures |RankedTlds(details)| == |Unregistered(details)|
  {
    var rs := SortByRank(Unregistered(details));
    assert |multiset(rs)| == |rs|;
  }

  /** Every TLD in the output is named by some unregistered record. */
  lemma RankedTldsOnlyUnregistered(details: seq<DomainRecord>, k: nat)
    requires k < |RankedTlds(details)|
    ensures exists d :: d in details && !d.isRegistered && d.tld == RankedTlds(details)[k]
  {
    var rs := SortByRank(Unregistered(details));
    assert RankedTlds(details) == TldsOf(rs);
    assert rs[k] in rs;
    assert rs[k] in Unregistered(details);
  }

  /** Every unregistered record has its TLD in the output. */
  lemma RankedTldsAllUnregistered(details: seq<DomainRecord>, d: DomainRecord)
    requires d in details && !d.isRegistered
    ensures d.tld in RankedTlds(details)
  {
    var rs := SortByRank(Unregistered(details));
    assert RankedTlds(details) == TldsOf(rs);
    assert d in Unregistered(details);
    assert d in rs;
    var k :| 0 <= k < |rs| && rs[k] == d;
    assert RankedTlds(details)[k] == d.tld;
  }

  /** A TLD is in the output exactly when some unregistered record names it. */
  lemma RankedTldsMembers(details: seq<DomainRecord>, t: string)
    ensures t in RankedTlds(details) <==> exists d :: d in details && !d.isRegistered && d.tld == t
  {
    if t in RankedTlds(details) {
      var k :| 0 <= k < |RankedTlds(details)| && RankedTlds(details)[k] == t;
      RankedTldsOnlyUnregistered(details, k);
    }
    if exists d :: d in details && !d.isRegistered && d.tld == t {
      var d :| d in details && !d.isRegistered && d.tld == t;
      RankedTldsAllUnregistered(details, d);
    }
  }
}
