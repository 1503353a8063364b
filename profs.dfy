/** Examiner selection: the examiners still under the daily cap on a day, ordered by their
    total load over the run, with ties kept in catalogue order (a stable sort). */
module ProfSelection {
  import opened Catalog

  /** The examiners, in catalogue order, with fewer than PROF_DAILY_CAP exams on day `d`. */
  function UnderCap(profs: seq<Id>, profDay: map<(Id, int), int>, d: int): seq<Id>
  {
    if profs == [] then []
    else
      (if Lookup(profDay, (profs[0], d)) < PROF_DAILY_CAP then [profs[0]] else [])
      + UnderCap(profs[1..], profDay, d)
  }

  /** The filter keeps exactly the examiners under the cap on day `d`, and nothing else. */
  lemma {:induction false} UnderCapMembers(profs: seq<Id>, profDay: map<(Id, int), int>, d: int)
    ensures forall p :: p in UnderCap(profs, profDay, d) <==> p in profs && Lookup(profDay, (p, d)) < PROF_DAILY_CAP
    ensures |UnderCap(profs, profDay, d)| <= |profs|
  {
    if profs != [] {
      UnderCapMembers(profs[1..], profDay, d);
      assert profs == [profs[0]] + profs[1..];
    }
  }

  /** Non-decreasing total load along `s`. */
  ghost predicate SortedByLoad(s: seq<Id>, total: map<Id, int>)
  {
    forall i, j :: 0 <= i < j < |s| ==> Lookup(total, s[i]) <= Lookup(total, s[j])
  }

  /** The examiners of `s` whose total load is `k`, in the order of `s`. */
  function WithLoad(s: seq<Id>, total: map<Id, int>, k: int): seq<Id>
  {
    if s == [] then []
    else (if Lookup(total, s[0]) == k then [s[0]] else []) + WithLoad(s[1..], total, k)
  }

  /** Putting an examiner no more loaded than any of `s` in front keeps `s` sorted. */
  lemma ConsSortedByLoad(x: Id, s: seq<Id>, total: map<Id, int>)
    requires SortedByLoad(s, total)
    requires forall y :: y in s ==> Lookup(total, x) <= Lookup(total, y)
    ensures SortedByLoad([x] + s, total)
  {
    var r := [x] + s;
    forall i, j | 0 <= i < j < |r| ensures Lookup(total, r[i]) <= Lookup(total, r[j]) {
      if i == 0 {
        assert r[j] == s[j - 1];
      } else {
        assert r[i] == s[i - 1] && r[j] == s[j - 1];
      }
    }
  }

  /** Inserts `p` into a load-sorted sequence before every examiner of equal or higher load. */
  function InsertByLoad(p: Id, s: seq<Id>, total: map<Id, int>): seq<Id>
  {
    if s == [] || Lookup(total, p) <= Lookup(total, s[0]) then [p] + s
    else [s[0]] + InsertByLoad(p, s[1..], total)
  }

  /** Insertion adds exactly `p` and keeps a sorted sequence sorted. */
  lemma {:induction false} InsertByLoadSorted(p: Id, s: seq<Id>, total: map<Id, int>)
    requires SortedByLoad(s, total)
    ensures multiset(InsertByLoad(p, s, total)) == multiset(s) + multiset{p}
    ensures SortedByLoad(InsertByLoad(p, s, total), total)
  {
    if s == [] || Lookup(total, p) <= Lookup(total, s[0]) {
      ConsSortedByLoad(p, s, total);
    } else {
      var rest := InsertByLoad(p, s[1..], total);
      assert s == [s[0]] + s[1..];
      assert SortedByLoad(s[1..], total) by {
        forall i, j | 0 <= i < j < |s[1..]| ensures Lookup(total, s[1..][i]) <= Lookup(total, s[1..][j]) {
          assert s[1..][i] == s[i + 1] && s[1..][j] == s[j + 1];
        }
      }
      InsertByLoadSorted(p, s[1..], total);
      assert forall y :: y in rest ==> Lookup(total, s[0]) <= Lookup(total, y) by {
        forall y | y in rest ensures Lookup(total, s[0]) <= Lookup(total, y) {
          assert y in multiset(rest);
          if y != p {
            var j :| 0 <= j < |s[1..]| && s[1..][j] == y;
            assert s[j + 1] == y;
          }
        }
      }
      ConsSortedByLoad(s[0], rest, total);
    }
  }

  /** Insertion sort by total load; each element is inserted ahead of the equal loads that
      follow it in the input, so the order among equal loads is the input order. */
  function SortByLoad(s: seq<Id>, total: map<Id, int>): seq<Id>
  {
    if s == [] then []
    else InsertByLoad(s[0], SortByLoad(s[1..], total), total)
  }

  /** The sort returns a load-sorted permutation of its input. */
  lemma {:induction false} SortByLoadSorted(s: seq<Id>, total: map<Id, int>)
    ensures multiset(SortByLoad(s, total)) == multiset(s)
    ensures SortedByLoad(SortByLoad(s, total), total)
  {
    if s != [] {
      SortByLoadSorted(s[1..], total);
      InsertByLoadSorted(s[0], SortByLoad(s[1..], total), total);
      assert s == [s[0]] + s[1..];
    }
  }

  /** Inserting `p` adds it at the front of its load class and leaves every class in order. */
  lemma {:induction false} InsertByLoadKeepsTies(p: Id, s: seq<Id>, total: map<Id, int>, k: int)
    ensures WithLoad(InsertByLoad(p, s, total), total, k)
         == (if Lookup(total, p) == k then [p] else []) + WithLoad(s, total, k)
  {
    var mine := if Lookup(total, p) == k then [p] else [];
    if s == [] || Lookup(total, p) <= Lookup(total, s[0]) {
      var r := [p] + s;
      assert r[0] == p && r[1..] == s;
      assert WithLoad(r, total, k) == mine + WithLoad(s, total, k);
    } else {
      var rest := InsertByLoad(p, s[1..], total);
      var r := [s[0]] + rest;
      var head := if Lookup(total, s[0]) == k then [s[0]] else [];
      assert r[0] == s[0] && r[1..] == rest;
      InsertByLoadKeepsTies(p, s[1..], total, k);
      assert WithLoad(r, total, k) == head + (mine + WithLoad(s[1..], total, k));
      assert WithLoad(s, total, k) == head + WithLoad(s[1..], total, k);
      // p is strictly heavier than s[0], so at most one of the two is in class k
      assert mine == [] || head == [];
      if mine == [] {
        assert head + (mine + WithLoad(s[1..], total, k)) == mine + (head + WithLoad(s[1..], total, k));
      } else {
        assert head + (mine + WithLoad(s[1..], total, k)) == mine + (head + WithLoad(s[1..], total, k));
      }
    }
  }

  /** The sort is stable: every load class keeps its input order. */
  lemma {:induction false} SortByLoadIsStable(s: seq<Id>, total: map<Id, int>, k: int)
    ensures WithLoad(SortByLoad(s, total), total, k) == WithLoad(s, total, k)
  {
    if s != [] {
      SortByLoadIsStable(s[1..], total, k);
      InsertByLoadKeepsTies(s[0], SortByLoad(s[1..], total), total, k);
    }
  }

  /** `available_profs`: the examiners under the daily cap on day `d`, least loaded first. */
  function AvailableProfs(profs: seq<Id>, profDay: map<(Id, int), int>, profTotal: map<Id, int>, d: int): seq<Id>
  {
    SortByLoad(UnderCap(profs, profDay, d), profTotal)
  }

  /** `available_profs` offers exactly the examiners under the cap, each once per catalogue
      occurrence, sorted by total load, so its head is a least-loaded one among them. */
  lemma AvailableProfsSpec(profs: seq<Id>, profDay: map<(Id, int), int>, profTotal: map<Id, int>, d: int)
    ensures var r := AvailableProfs(profs, profDay, profTotal, d);
      && (forall p :: p in r <==> p in profs && Lookup(profDay, (p, d)) < PROF_DAILY_CAP)
      && multiset(r) == multiset(UnderCap(profs, profDay, d))
      && SortedByLoad(r, profTotal)
      && (r != [] ==> forall p :: p in profs && Lookup(profDay, (p, d)) < PROF_DAILY_CAP ==>
                        Lookup(profTotal, r[0]) <= Lookup(profTotal, p))
  {
    var under := UnderCap(profs, profDay, d);
    var r := SortByLoad(under, profTotal);
    UnderCapMembers(profs, profDay, d);
    SortByLoadSorted(under, profTotal);
    assert forall p :: p in r <==> p in under by {
      forall p ensures p in r <==> p in under {
        assert p in r <==> p in multiset(r);
      }
    }
    if r != [] {
      forall p | p in profs && Lookup(profDay, (p, d)) < PROF_DAILY_CAP
        ensures Lookup(profTotal, r[0]) <= Lookup(profTotal, p)
      {
        var j :| 0 <= j < |r| && r[j] == p;
        if j > 0 { assert Lookup(profTotal, r[0]) <= Lookup(profTotal, r[j]); }
      }
    }
  }

  /** Among examiners of equal total load, `available_profs` keeps catalogue order. */
  lemma AvailableProfsKeepsTies(profs: seq<Id>, profDay: map<(Id, int), int>, profTotal: map<Id, int>, d: int, k: int)
    ensures WithLoad(AvailableProfs(profs, profDay, profTotal, d), profTotal, k)
         == WithLoad(UnderCap(profs, profDay, d), profTotal, k)
  {
    SortByLoadIsStable(UnderCap(profs, profDay, d), profTotal, k);
  }
}
