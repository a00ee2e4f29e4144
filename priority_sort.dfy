/**
  Ordering of an MX answer: entries ascending by priority, entries of equal
  priority in the order the resolver returned them (a stable sort).
 */
module PrioritySort {
  import opened Wrappers
  import opened Dns
  import opened Records

  ghost predicate Sorted(s: seq<MxEntry>) {
    forall i, j :: 0 <= i < j < |s| ==> s[i].priority <= s[j].priority
  }

  /** The entries of `s` whose priority is `p`, in their order in `s`. */
  function WithPriority(s: seq<MxEntry>, p: int): seq<MxEntry> {
    if s == [] then []
    else (if s[0].priority == p then [s[0]] else []) + WithPriority(s[1..], p)
  }

  /** Inserts `e` before the first entry whose priority is not lower. */
  function Insert(e: MxEntry, s: seq<MxEntry>): seq<MxEntry> {
    if s == [] || e.priority <= s[0].priority then [e] + s
    else [s[0]] + Insert(e, s[1..])
  }

  function SortByPriority(s: seq<MxEntry>): seq<MxEntry> {
    if s == [] then [] else Insert(s[0], SortByPriority(s[1..]))
  }

  /** The records of a non-empty MX answer: sorted, each marked as an exchanger with no addresses. */
  function ExchangeRecords(entries: seq<MxEntry>): (r: seq<MxRecord>)
    ensures |r| == |entries|
    ensures forall i :: 0 <= i < |r| ==> r[i].mx == Some(true) && r[i].A == [] && r[i].AAAA == []
  {
    var sorted := SortByPriority(entries);
    SortPermutation(entries);
    seq(|sorted|, i requires 0 <= i < |sorted| => ExchangeRecord(sorted[i]))
  }

  /** The entries a record list stands for. */
  function Entries(rs: seq<MxRecord>): seq<MxEntry> {
    seq(|rs|, i requires 0 <= i < |rs| => Entry(rs[i]))
  }

  lemma {:induction false} InsertPermutation(e: MxEntry, s: seq<MxEntry>)
    ensures multiset(Insert(e, s)) == multiset(s) + multiset{e}
  {
    if s != [] && e.priority > s[0].priority {
      InsertPermutation(e, s[1..]);
      assert s == [s[0]] + s[1..];
    }
  }

  lemma {:induction false} InsertSorted(e: MxEntry, s: seq<MxEntry>)
    requires Sorted(s)
    ensures Sorted(Insert(e, s))
  {
    if s != [] && e.priority > s[0].priority {
      var t := Insert(e, s[1..]);
      InsertSorted(e, s[1..]);
      InsertPermutation(e, s[1..]);
      forall j | 0 <= j < |t| ensures s[0].priority <= t[j].priority {
        assert t[j] in multiset(t);
        if t[j] != e {
          assert t[j] in multiset(s[1..]);
          var k :| 0 <= k < |s[1..]| && s[1..][k] == t[j];
          assert s[k + 1] == t[j];
        }
      }
    }
  }

  lemma WithPriorityCons(x: MxEntry, t: seq<MxEntry>, p: int)
    ensures WithPriority([x] + t, p) == (if x.priority == p then [x] else []) + WithPriority(t, p)
  {
  }

  lemma {:induction false} InsertWithPriority(e: MxEntry, s: seq<MxEntry>, p: int)
    ensures WithPriority(Insert(e, s), p) == (if e.priority == p then [e] else []) + WithPriority(s, p)
  {
    if s == [] || e.priority <= s[0].priority {
      WithPriorityCons(e, s, p);
    } else {
      var t := Insert(e, s[1..]);
      InsertWithPriority(e, s[1..], p);
      WithPriorityCons(s[0], t, p);
      WithPriorityCons(s[0], s[1..], p);
      assert s == [s[0]] + s[1..];
    }
  }

  /** The sort is a permutation of the answer. */
  lemma {:induction false} SortPermutation(s: seq<MxEntry>)
    ensures multiset(SortByPriority(s)) == multiset(s)
    ensures |SortByPriority(s)| == |s|
  {
    if s != [] {
      SortPermutation(s[1..]);
      InsertPermutation(s[0], SortByPriority(s[1..]));
      assert s == [s[0]] + s[1..];
    }
    assert |multiset(SortByPriority(s))| == |multiset(s)|;
  }

  /** The sort orders the answer ascending by priority. */
  lemma {:induction false} SortSorted(s: seq<MxEntry>)
    ensures Sorted(SortByPriority(s))
  {
    if s != [] {
      SortSorted(s[1..]);
      InsertSorted(s[0], SortByPriority(s[1..]));
    }
  }

  /** The sort is stable: entries of one priority keep their order. */
  lemma {:induction false} SortStable(s: seq<MxEntry>, p: int)
    ensures WithPriority(SortByPriority(s), p) == WithPriority(s, p)
  {
    if s != [] {
      SortStable(s[1..], p);
      InsertWithPriority(s[0], SortByPriority(s[1..]), p);
    }
  }

  lemma {:induction false} WithPriorityNonEmpty(s: seq<MxEntry>, p: int)
    requires WithPriority(s, p) != []
    ensures exists i :: 0 <= i < |s| && s[i].priority == p
  {
    if s[0].priority != p {
      WithPriorityNonEmpty(s[1..], p);
      var i :| 0 <= i < |s[1..]| && s[1..][i].priority == p;
      assert s[i + 1].priority == p;
    }
  }

  lemma HeadHasItsPriority(s: seq<MxEntry>)
    requires s != []
    ensures WithPriority(s, s[0].priority) != []
  {
  }

  /** Two sorted arrangements with the same entries of every priority, in the same order, are equal. */
  lemma {:induction false} SameArrangement(a: seq<MxEntry>, b: seq<MxEntry>)
    requires Sorted(a) && Sorted(b)
    requires forall p :: WithPriority(a, p) == WithPriority(b, p)
    ensures a == b
    decreases |a| + |b|
  {
    if a != [] && b != [] {
      var pa, pb := a[0].priority, b[0].priority;
      assert WithPriority(a, pa) != [];
      WithPriorityNonEmpty(b, pa);
      assert WithPriority(b, pb) != [];
      WithPriorityNonEmpty(a, pb);
      assert pa == pb;
      assert WithPriority(a, pa)[0] == a[0];
      assert WithPriority(b, pa)[0] == b[0];
      assert a[0] == b[0];
      forall p ensures WithPriority(a[1..], p) == WithPriority(b[1..], p) {
        var head := if pa == p then [a[0]] else [];
        assert WithPriority(a, p) == WithPriority(b, p);
        assert WithPriority(a, p) == head + WithPriority(a[1..], p);
        assert WithPriority(b, p) == head + WithPriority(b[1..], p);
        assert WithPriority(a[1..], p) == WithPriority(a, p)[|head|..];
        assert WithPriority(b[1..], p) == WithPriority(b, p)[|head|..];
      }
      SameArrangement(a[1..], b[1..]);
      assert a == [a[0]] + a[1..];
      assert b == [b[0]] + b[1..];
    } else if a != [] {
      HeadHasItsPriority(a);
      assert false;
    } else if b != [] {
      HeadHasItsPriority(b);
      assert false;
    }
  }

  /**
    The sort is the only sorted arrangement that keeps equal priorities in
    answer order, so any stable ascending sort by priority yields it.
   */
  lemma SortUnique(r: seq<MxEntry>, s: seq<MxEntry>)
    requires Sorted(r)
    requires forall p :: WithPriority(r, p) == WithPriority(s, p)
    ensures r == SortByPriority(s)
  {
    SortSorted(s);
    forall p ensures WithPriority(r, p) == WithPriority(SortByPriority(s), p) {
      SortStable(s, p);
    }
    SameArrangement(r, SortByPriority(s));
  }

  /**
    The records of a non-empty MX answer are a stable ascending-by-priority
    permutation of the answer.
   */
  lemma ExchangeRecordsOrdered(entries: seq<MxEntry>)
    ensures Sorted(Entries(ExchangeRecords(entries)))
    ensures multiset(Entries(ExchangeRecords(entries))) == multiset(entries)
    ensures forall p :: WithPriority(Entries(ExchangeRecords(entries)), p) == WithPriority(entries, p)
  {
    var r := ExchangeRecords(entries);
    SortPermutation(entries);
    SortSorted(entries);
    assert Entries(r) == SortByPriority(entries);
    forall p ensures WithPriority(Entries(r), p) == WithPriority(entries, p) {
      SortStable(entries, p);
    }
  }
}
