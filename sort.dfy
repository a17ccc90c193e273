/** `Vec::sort_by_key(|r| r.ts_us)`, the sort the tick applies before
    encoding. Rust's `sort_by_key` is stable, so its result is fixed: the
    records ordered by timestamp, equal timestamps in their original order.
    It is modelled as insertion sort, and that characterisation is proved. */
module StableSort {
  import opened Ints
  import opened Packet

  predicate SortedByTs(rs: seq<Record>)
  {
    forall i, j | 0 <= i < j < |rs| :: rs[i].tsUs <= rs[j].tsUs
  }

  /** The records stamped `ts`, in their order in `rs`. */
  function WithTs(rs: seq<Record>, ts: uint64): (r: seq<Record>)
    ensures |r| <= |rs|
  {
    if rs == [] then []
    else (if rs[0].tsUs == ts then [rs[0]] else []) + WithTs(rs[1..], ts)
  }

  /** Insert `x` after every record whose timestamp is not later. */
  function Insert(s: seq<Record>, x: Record): (r: seq<Record>)
    ensures multiset(r) == multiset(s) + multiset{x}
  {
    if s == [] then [x]
    else if x.tsUs < s[0].tsUs then [x] + s
    else
      assert s == [s[0]] + s[1..];
      [s[0]] + Insert(s[1..], x)
  }

  /** The sorted order of `rs`. */
  function SortByTs(rs: seq<Record>): (r: seq<Record>)
    ensures multiset(r) == multiset(rs)
  {
    if rs == [] then []
    else
      assert rs == rs[..|rs| - 1] + [rs[|rs| - 1]];
      Insert(SortByTs(rs[..|rs| - 1]), rs[|rs| - 1])
  }

  lemma {:induction false} InsertSorted(s: seq<Record>, x: Record)
    requires SortedByTs(s)
    ensures SortedByTs(Insert(s, x))
  {
    if s != [] && x.tsUs >= s[0].tsUs {
      InsertSorted(s[1..], x);
      var r := Insert(s, x);
      forall i, j | 0 <= i < j < |r|
        ensures r[i].tsUs <= r[j].tsUs
      {
        if i == 0 {
          assert r[j] in multiset(Insert(s[1..], x));
          assert r[j] == x || r[j] in s[1..];
        }
      }
    }
  }

  lemma {:induction false} InsertWithTs(s: seq<Record>, x: Record, ts: uint64)
    requires SortedByTs(s)
    ensures WithTs(Insert(s, x), ts) == WithTs(s, ts) + (if x.tsUs == ts then [x] else [])
  {
    if s == [] {
      assert WithTs([x], ts) == (if x.tsUs == ts then [x] else []) + WithTs([], ts);
    } else if x.tsUs < s[0].tsUs {
      assert ([x] + s)[1..] == s;
      if x.tsUs == ts {
        NoneBelow(s, ts);
      }
    } else {
      InsertWithTs(s[1..], x, ts);
      assert ([s[0]] + Insert(s[1..], x))[1..] == Insert(s[1..], x);
    }
  }

  /** A sorted sequence whose first record is later than `ts` has no record
      stamped `ts`. */
  lemma {:induction false} NoneBelow(s: seq<Record>, ts: uint64)
    requires SortedByTs(s) && s != [] && ts < s[0].tsUs
    ensures WithTs(s, ts) == []
  {
    if |s| > 1 {
      NoneBelow(s[1..], ts);
    }
  }

  lemma {:induction false} WithTsAppend(s: seq<Record>, x: Record, ts: uint64)
    ensures WithTs(s + [x], ts) == WithTs(s, ts) + (if x.tsUs == ts then [x] else [])
  {
    if s == [] {
      assert WithTs([x], ts) == (if x.tsUs == ts then [x] else []) + WithTs([], ts);
    } else {
      assert (s + [x])[1..] == s[1..] + [x];
      WithTsAppend(s[1..], x, ts);
    }
  }

  /** The result is ordered by timestamp. */
  lemma {:induction false} SortSorted(rs: seq<Record>)
    ensures SortedByTs(SortByTs(rs))
  {
    if rs != [] {
      SortSorted(rs[..|rs| - 1]);
      InsertSorted(SortByTs(rs[..|rs| - 1]), rs[|rs| - 1]);
    }
  }

  /** Stability: the records sharing a timestamp keep their relative order. */
  lemma {:induction false} SortStable(rs: seq<Record>, ts: uint64)
    ensures WithTs(SortByTs(rs), ts) == WithTs(rs, ts)
  {
    if rs != [] {
      var init, last := rs[..|rs| - 1], rs[|rs| - 1];
      var tail := if last.tsUs == ts then [last] else [];
      assert rs == init + [last];
      SortSorted(init);
      calc {
        WithTs(SortByTs(rs), ts);
        WithTs(Insert(SortByTs(init), last), ts);
        { InsertWithTs(SortByTs(init), last, ts); }
        WithTs(SortByTs(init), ts) + tail;
        { SortStable(init, ts); }
        WithTs(init, ts) + tail;
        { WithTsAppend(init, last, ts); }
        WithTs(rs, ts);
      }
    }
  }

  /** What `sort_by_key` promises, in one place: ordered by timestamp, the
      same records, and equal timestamps in their original order. */
  lemma SortByTsSpec(rs: seq<Record>)
    ensures SortedByTs(SortByTs(rs))
    ensures multiset(SortByTs(rs)) == multiset(rs)
    ensures forall ts :: WithTs(SortByTs(rs), ts) == WithTs(rs, ts)
  {
    SortSorted(rs);
    forall ts
      ensures WithTs(SortByTs(rs), ts) == WithTs(rs, ts)
    {
      SortStable(rs, ts);
    }
  }

  /** A sorted sequence is determined by its records per timestamp, so the
      sorted, stable order is unique: any ordering by timestamp that keeps
      equal timestamps in their original order is `SortByTs`. */
  lemma {:induction false} SortUnique(rs: seq<Record>, t: seq<Record>)
    requires SortedByTs(t)
    requires forall ts :: WithTs(t, ts) == WithTs(rs, ts)
    ensures t == SortByTs(rs)
  {
    var s := SortByTs(rs);
    SortSorted(rs);
    forall ts
      ensures WithTs(s, ts) == WithTs(t, ts)
    {
      SortStable(rs, ts);
    }
    SortedSameGroups(s, t);
  }

  lemma {:induction false} WithTsMember(s: seq<Record>, ts: uint64, x: Record)
    ensures x in WithTs(s, ts) <==> x in s && x.tsUs == ts
  {
    if s != [] {
      WithTsMember(s[1..], ts, x);
      assert x in s <==> x == s[0] || x in s[1..];
    }
  }

  /** With the same records per timestamp, the first record of `t` is no
      earlier than the first of the sorted `s`. */
  lemma HeadNotEarlier(s: seq<Record>, t: seq<Record>)
    requires SortedByTs(s) && t != []
    requires forall ts :: WithTs(s, ts) == WithTs(t, ts)
    ensures s != [] && s[0].tsUs <= t[0].tsUs
  {
    var n := t[0].tsUs;
    WithTsMember(t, n, t[0]);
    WithTsMember(s, n, t[0]);
    var k :| 0 <= k < |s| && s[k] == t[0];
  }

  lemma {:induction false} SortedSameGroups(s: seq<Record>, t: seq<Record>)
    requires SortedByTs(s) && SortedByTs(t)
    requires forall ts :: WithTs(s, ts) == WithTs(t, ts)
    ensures s == t
    decreases |s|
  {
    if t != [] {
      HeadNotEarlier(s, t);
    }
    if s != [] {
      HeadNotEarlier(t, s);
      var m := s[0].tsUs;
      assert t[0].tsUs == m;
      assert s[0] == WithTs(s, m)[0] == WithTs(t, m)[0] == t[0];
      forall ts
        ensures WithTs(s[1..], ts) == WithTs(t[1..], ts)
      {
        assert WithTs(s, ts) == WithTs(t, ts);
        assert WithTs(s, ts) == (if m == ts then [s[0]] else []) + WithTs(s[1..], ts);
        assert WithTs(t, ts) == (if m == ts then [t[0]] else []) + WithTs(t[1..], ts);
        if m == ts {
          assert WithTs(s[1..], ts) == WithTs(s, ts)[1..];
          assert WithTs(t[1..], ts) == WithTs(t, ts)[1..];
        } else {
          assert WithTs(s[1..], ts) == WithTs(s, ts);
          assert WithTs(t[1..], ts) == WithTs(t, ts);
        }
      }
      SortedSameGroups(s[1..], t[1..]);
      assert s == [s[0]] + s[1..] && t == [t[0]] + t[1..];
    }
  }
}
