/** What "best fees first, equal fees in arrival order" means, independently of any tree. */
module StableOrder {
  import opened Bytes
  import opened FeeTree
  import opened FeeTreeOrder

  predicate Descending(s: seq<Entry>) {
    forall i, j :: 0 <= i < j < |s| ==> s[i].fee >= s[j].fee
  }

  /** The entries that pay exactly this fee, in order. */
  function OfFee(s: seq<Entry>, fee: uint64): seq<Entry> {
    if |s| == 0 then [] else (if s[0].fee == fee then [s[0]] else []) + OfFee(s[1..], fee)
  }

  /** s is a sorted by fee, best first, without reordering equal fees. */
  predicate StableSorting(a: seq<Entry>, s: seq<Entry>) {
    Descending(s) && forall fee: uint64 :: OfFee(a, fee) == OfFee(s, fee)
  }

  lemma {:induction false} OfFeeConcat(a: seq<Entry>, b: seq<Entry>, fee: uint64)
    ensures OfFee(a + b, fee) == OfFee(a, fee) + OfFee(b, fee)
  {
    if |a| == 0 {
      assert a + b == b;
    } else {
      assert (a + b)[1..] == a[1..] + b;
      OfFeeConcat(a[1..], b, fee);
    }
  }

  lemma {:induction false} OfFeeEmpty(s: seq<Entry>, fee: uint64)
    requires forall i :: 0 <= i < |s| ==> s[i].fee != fee
    ensures OfFee(s, fee) == []
  {
    if |s| > 0 {
      OfFeeEmpty(s[1..], fee);
    }
  }

  /** An element is at the front of its fee class, so the class is not empty. */
  lemma {:induction false} OfFeeMember(s: seq<Entry>, i: nat)
    requires i < |s|
    ensures s[i] in OfFee(s, s[i].fee)
  {
    if i > 0 {
      OfFeeMember(s[1..], i - 1);
    }
  }

  lemma {:induction false} OfFeeSource(s: seq<Entry>, fee: uint64, x: Entry)
    requires x in OfFee(s, fee)
    ensures x in s && x.fee == fee
  {
    if x in OfFee(s[1..], fee) {
      OfFeeSource(s[1..], fee, x);
    }
  }

  /** A stable sorting holds exactly the entries it sorts. */
  lemma SameEntries(a: seq<Entry>, s: seq<Entry>, x: Entry)
    requires StableSorting(a, s)
    ensures x in a <==> x in s
  {
    if x in a {
      var i :| 0 <= i < |a| && a[i] == x;
      OfFeeMember(a, i);
      OfFeeSource(s, x.fee, x);
    }
    if x in s {
      var i :| 0 <= i < |s| && s[i] == x;
      OfFeeMember(s, i);
      OfFeeSource(a, x.fee, x);
    }
  }

  lemma OfFeeTail(s: seq<Entry>, fee: uint64)
    requires |s| > 0
    ensures OfFee(s[1..], fee) == if s[0].fee == fee then OfFee(s, fee)[1..] else OfFee(s, fee)
    ensures s[0].fee == fee ==> |OfFee(s, fee)| > 0 && OfFee(s, fee)[0] == s[0]
  {
  }

  /** There is only one stable sorting. */
  lemma {:induction false} StableSortingUnique(a: seq<Entry>, s: seq<Entry>, t: seq<Entry>)
    requires StableSorting(a, s) && StableSorting(a, t)
    ensures s == t
    decreases |s|
  {
    if |s| == 0 || |t| == 0 {
      if |s| > 0 { SameEntries(a, s, s[0]); SameEntries(a, t, s[0]); }
      if |t| > 0 { SameEntries(a, t, t[0]); SameEntries(a, s, t[0]); }
    } else {
      SameEntries(a, s, s[0]);
      SameEntries(a, t, s[0]);
      SameEntries(a, t, t[0]);
      SameEntries(a, s, t[0]);
      var fee := s[0].fee;
      assert fee == t[0].fee;
      assert OfFee(s, fee) == OfFee(t, fee);
      forall f: uint64 ensures OfFee(s[1..], f) == OfFee(t[1..], f) {
        assert OfFee(s, f) == OfFee(t, f);
        OfFeeTail(s, f);
        OfFeeTail(t, f);
      }
      StableSortingUnique(s[1..], s[1..], t[1..]);
      OfFeeTail(s, fee);
      OfFeeTail(t, fee);
      assert s == [s[0]] + s[1..] && t == [t[0]] + t[1..];
    }
  }

  lemma {:induction false} InsertDescDescending(s: seq<Entry>, x: Entry)
    requires Descending(s)
    ensures Descending(InsertDesc(s, x))
    ensures forall y :: y in InsertDesc(s, x) <==> y in s || y == x
  {
    if |s| > 0 && s[0].fee >= x.fee {
      InsertDescDescending(s[1..], x);
      var r := InsertDesc(s[1..], x);
      forall j | 0 <= j < |r| ensures s[0].fee >= r[j].fee {
        assert r[j] in r;
      }
    }
  }

  lemma {:induction false} InsertDescOfFee(s: seq<Entry>, x: Entry, fee: uint64)
    requires Descending(s)
    ensures OfFee(InsertDesc(s, x), fee) == OfFee(s, fee) + if x.fee == fee then [x] else []
  {
    if |s| == 0 || s[0].fee < x.fee {
      assert ([x] + s)[1..] == s;
      if fee == x.fee {
        OfFeeEmpty(s, fee);
      }
    } else {
      var r := InsertDesc(s[1..], x);
      assert ([s[0]] + r)[1..] == r;
      InsertDescOfFee(s[1..], x, fee);
    }
  }

  /** A new arrival goes behind its equals: sorting commutes with arrival. */
  lemma ArrivalSorts(a: seq<Entry>, s: seq<Entry>, x: Entry)
    requires StableSorting(a, s)
    ensures StableSorting(a + [x], InsertDesc(s, x))
  {
    InsertDescDescending(s, x);
    forall fee: uint64 ensures OfFee(a + [x], fee) == OfFee(InsertDesc(s, x), fee) {
      OfFeeConcat(a, [x], fee);
      InsertDescOfFee(s, x, fee);
      assert OfFee([x], fee) == if x.fee == fee then [x] else [];
    }
  }

  lemma OfFeeLacks(s: seq<Entry>, fee: uint64, txid: bytes)
    requires Find(s, fee, txid) == |s|
    ensures Find(OfFee(s, fee), fee, txid) == |OfFee(s, fee)|
  {
    var c := OfFee(s, fee);
    var i := Find(c, fee, txid);
    if i < |c| {
      OfFeeSource(s, fee, c[i]);
    }
  }

  lemma FindPrefix(s: seq<Entry>, fee: uint64, txid: bytes)
    requires Find(s, fee, txid) < |s|
    ensures var p := s[..Find(s, fee, txid)]; Find(p, fee, txid) == |p|
  {
  }

  lemma DeleteOfFee(s: seq<Entry>, fee: uint64, txid: bytes, f: uint64)
    ensures OfFee(Delete(s, fee, txid), f) == if f == fee then Delete(OfFee(s, f), fee, txid) else OfFee(s, f)
  {
    var i := Find(s, fee, txid);
    if i == |s| {
      OfFeeLacks(s, fee, txid);
    } else {
      FindPrefix(s, fee, txid);
      var p, m, q := s[..i], [s[i]], s[i + 1..];
      assert s == p + (m + q);
      OfFeeConcat(p, m + q, f);
      OfFeeConcat(m, q, f);
      OfFeeConcat(p, q, f);
      assert OfFee(m, f) == if f == fee then m else [];
      if f == fee {
        OfFeeLacks(p, fee, txid);
        DeleteConcat(OfFee(p, f), m + OfFee(q, f), fee, txid);
        assert Find(m + OfFee(q, f), fee, txid) == 0;
        assert Delete(m + OfFee(q, f), fee, txid) == OfFee(q, f);
      } else {
        assert OfFee(p, f) + ([] + OfFee(q, f)) == OfFee(p, f) + OfFee(q, f);
      }
    }
  }

  /** A departure leaves the rest in place: sorting commutes with deletion. */
  lemma DepartureSorts(a: seq<Entry>, s: seq<Entry>, fee: uint64, txid: bytes)
    requires StableSorting(a, s)
    ensures StableSorting(Delete(a, fee, txid), Delete(s, fee, txid))
  {
    var i := Find(s, fee, txid);
    forall f: uint64 ensures OfFee(Delete(a, fee, txid), f) == OfFee(Delete(s, fee, txid), f) {
      DeleteOfFee(a, fee, txid, f);
      DeleteOfFee(s, fee, txid, f);
    }
  }

  /** A stable sorting is a permutation, so it has the same length. */
  lemma {:induction false} SortingLength(a: seq<Entry>, s: seq<Entry>)
    requires StableSorting(a, s)
    ensures multiset(a) == multiset(s) && |a| == |s|
  {
    forall x: Entry ensures multiset(a)[x] == multiset(s)[x] {
      OfFeeCount(a, x);
      OfFeeCount(s, x);
    }
    assert |multiset(a)| == |a| && |multiset(s)| == |s|;
  }

  lemma {:induction false} OfFeeCount(s: seq<Entry>, x: Entry)
    ensures multiset(OfFee(s, x.fee))[x] == multiset(s)[x]
  {
    if |s| > 0 {
      OfFeeCount(s[1..], x);
      assert s == [s[0]] + s[1..];
    }
  }
}
