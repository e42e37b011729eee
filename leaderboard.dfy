/**
 * The leaderboard page of the client
 * (client/src/app/leaderboard/leaderboard.component.ts): the participants of
 * the year, sorted in place, descending, by the selected key.
 */
module Leaderboard {

  /** A leaderboard entry as the client receives it. */
  datatype Participant = Participant(
    userId: string,
    displayName: string,
    drinkDays: int,
    totalDays: int,
    totalScore: int)

  /** The three sort keys of the page. */
  datatype SortKey = DrinkDays | Average | TotalScore

  /**
   * `a` may come before `b`: the comparator of line 48 or 50 is not positive.
   * The average drinkDays / totalDays is compared by cross-multiplication.
   */
  predicate RanksAbove(key: SortKey, a: Participant, b: Participant) {
    match key
    case DrinkDays => a.drinkDays >= b.drinkDays
    case TotalScore => a.totalScore >= b.totalScore
    case Average => a.drinkDays * b.totalDays >= b.drinkDays * a.totalDays
  }

  /** Every pair is in comparator order: the list is non-increasing on the key. */
  ghost predicate SortedBy(key: SortKey, s: seq<Participant>) {
    forall p, q :: 0 <= p < q < |s| ==> RanksAbove(key, s[p], s[q])
  }

  /** The key is a total preorder on `s`: the average needs positive day counts. */
  ghost predicate Comparable(key: SortKey, s: seq<Participant>) {
    key == Average ==> forall k :: 0 <= k < |s| ==> s[k].totalDays > 0
  }

  lemma RanksTotal(key: SortKey, a: Participant, b: Participant)
    ensures RanksAbove(key, a, b) || RanksAbove(key, b, a)
  {
  }

  lemma RanksTransitive(key: SortKey, a: Participant, b: Participant, c: Participant)
    requires key == Average ==> a.totalDays > 0 && b.totalDays > 0 && c.totalDays > 0
    requires RanksAbove(key, a, b) && RanksAbove(key, b, c)
    ensures RanksAbove(key, a, c)
  {
    if key == Average {
      var ad, at, bd, bt, cd, ct := a.drinkDays, a.totalDays, b.drinkDays, b.totalDays, c.drinkDays, c.totalDays;
      assert ad * bt * ct >= bd * at * ct by {
        MulRight(ad * bt, bd * at, ct);
      }
      assert bd * ct * at >= cd * bt * at by {
        MulRight(bd * ct, cd * bt, at);
      }
      assert ad * ct * bt >= cd * at * bt;
      if ad * ct < cd * at {
        MulRightStrict(ad * ct, cd * at, bt);
      }
    }
  }

  lemma MulRight(x: int, y: int, z: int)
    requires x >= y && z >= 0
    ensures x * z >= y * z
  {
  }

  lemma MulRightStrict(x: int, y: int, z: int)
    requires x < y && z > 0
    ensures x * z < y * z
  {
  }

  /** Members of a permutation of a comparable list are comparable. */
  lemma ComparableMember(key: SortKey, s: seq<Participant>, t: seq<Participant>, k: int)
    requires multiset(s) == multiset(t) && Comparable(key, t)
    requires 0 <= k < |s|
    ensures key == Average ==> s[k].totalDays > 0
  {
    assert s[k] in multiset(t);
  }

  /** The first `n` entries are in comparator order. */
  ghost predicate SortedPrefix(key: SortKey, s: seq<Participant>, n: int)
    requires 0 <= n <= |s|
  {
    forall p, q :: 0 <= p < q < n ==> RanksAbove(key, s[p], s[q])
  }

  /** Entries `0..i`, the one at `j` aside, are in comparator order. */
  ghost predicate SortedExcept(key: SortKey, s: seq<Participant>, i: int, j: int)
    requires 0 <= i < |s|
  {
    forall p, q :: 0 <= p < q <= i && p != j && q != j ==> RanksAbove(key, s[p], s[q])
  }

  /** The entry at `j` ranks above every entry after it up to `i`. */
  ghost predicate AboveRest(key: SortKey, s: seq<Participant>, i: int, j: int)
    requires 0 <= j <= i < |s|
  {
    forall q :: j < q <= i ==> RanksAbove(key, s[j], s[q])
  }

  lemma StartInsert(key: SortKey, s: seq<Participant>, i: int)
    requires 0 < i < |s| && SortedPrefix(key, s, i)
    ensures SortedExcept(key, s, i, i) && AboveRest(key, s, i, i)
  {
  }

  /** One adjacent swap moves the entry at `j` one place left, keeping the order around it. */
  lemma SwapStep(key: SortKey, s: seq<Participant>, t: seq<Participant>, i: int, j: int, ok: bool)
    requires 0 < j <= i < |s|
    requires t == s[j - 1 := s[j]][j := s[j - 1]]
    requires !RanksAbove(key, s[j - 1], s[j])
    requires ok ==> SortedExcept(key, s, i, j) && AboveRest(key, s, i, j)
    ensures ok ==> SortedExcept(key, t, i, j - 1) && AboveRest(key, t, i, j - 1)
    ensures multiset(t) == multiset(s)
  {
    SwapPermutes(s, t, j);
    if ok {
      RanksTotal(key, s[j - 1], s[j]);
      forall p, q | 0 <= p < q <= i && p != j - 1 && q != j - 1
        ensures RanksAbove(key, t[p], t[q])
      {
        if q == j {
          assert t[q] == s[j - 1] && t[p] == s[p];
        } else if p == j {
          assert t[p] == s[j - 1] && t[q] == s[q];
        } else {
          assert t[p] == s[p] && t[q] == s[q];
        }
      }
      forall q | j - 1 < q <= i
        ensures RanksAbove(key, t[j - 1], t[q])
      {
        assert t[j - 1] == s[j];
        if q > j {
          assert t[q] == s[q];
        }
      }
    }
  }

  /** An adjacent swap keeps the same entries. */
  lemma SwapPermutes(s: seq<Participant>, t: seq<Participant>, j: int)
    requires 0 < j < |s|
    requires t == s[j - 1 := s[j]][j := s[j - 1]]
    ensures multiset(t) == multiset(s)
  {
    var u := s[j - 1 := s[j]];
    assert multiset(u) == multiset(s) - multiset{s[j - 1]} + multiset{s[j]};
    assert multiset(t) == multiset(u) - multiset{u[j]} + multiset{s[j - 1]};
  }

  /** The moved entry stops below one that ranks at least as high: the prefix grows. */
  lemma InsertDone(key: SortKey, s: seq<Participant>, original: seq<Participant>, i: int, j: int)
    requires 0 <= j <= i < |s|
    requires multiset(s) == multiset(original) && Comparable(key, original)
    requires j == 0 || RanksAbove(key, s[j - 1], s[j])
    requires SortedExcept(key, s, i, j) && AboveRest(key, s, i, j)
    ensures SortedPrefix(key, s, i + 1)
  {
    if j > 0 {
      forall p | 0 <= p < j - 1
        ensures RanksAbove(key, s[p], s[j])
      {
        ComparableMember(key, s, original, p);
        ComparableMember(key, s, original, j - 1);
        ComparableMember(key, s, original, j);
        RanksTransitive(key, s[p], s[j - 1], s[j]);
      }
    }
  }

  /**
   * `participants.sort(comparator)` on lines 48 and 50, as an insertion sort:
   * the array ends as a permutation of itself, non-increasing on the key
   * whenever the key orders its elements.
   */
  method SortInPlace(a: array<Participant>, key: SortKey)
    modifies a
    ensures multiset(a[..]) == multiset(old(a[..]))
    ensures Comparable(key, old(a[..])) ==> SortedBy(key, a[..])
  {
    ghost var ok := Comparable(key, a[..]);
    ghost var original := a[..];
    if a.Length < 2 {
      return;
    }
    for i := 1 to a.Length
      invariant multiset(a[..]) == multiset(original)
      invariant ok ==> SortedPrefix(key, a[..], i)
    {
      if ok {
        StartInsert(key, a[..], i);
      }
      var j := i;
      while j > 0 && !RanksAbove(key, a[j - 1], a[j])
        invariant 0 <= j <= i
        invariant multiset(a[..]) == multiset(original)
        invariant ok ==> SortedExcept(key, a[..], i, j) && AboveRest(key, a[..], i, j)
      {
        ghost var before := a[..];
        a[j - 1], a[j] := a[j], a[j - 1];
        SwapStep(key, before, a[..], i, j, ok);
        j := j - 1;
      }
      if ok {
        InsertDone(key, a[..], original, i, j);
      }
    }
  }

  /** The leaderboard page: loading flag, sort key and the participants array. */
  class LeaderboardComponent {
    var loading: bool
    var sortBy: SortKey
    var participants: array<Participant>

    /** Lines 36-38: loading, sorted by drink days, no participants yet. */
    constructor ()
      ensures loading && sortBy == DrinkDays && participants.Length == 0
    {
      loading := true;
      sortBy := DrinkDays;
      participants := new Participant[0];
    }

    /** Lines 61-64: the response replaces the participants, then loading ends. */
    method OnResponse(response: array<Participant>)
      modifies this
      ensures participants == response && !loading && sortBy == old(sortBy)
    {
      participants := response;
      loading := false;
    }

    /** The page's sort selector. */
    method SelectSort(key: SortKey)
      modifies this
      ensures sortBy == key && loading == old(loading) && participants == old(participants)
    {
      sortBy := key;
    }

    /**
     * `sortedParticipants` (lines 40-52): empty while loading; otherwise the
     * stored array itself, sorted in place by the selected key.
     */
    method SortedParticipants() returns (r: array<Participant>)
      modifies participants
      ensures loading ==> fresh(r) && r.Length == 0 && participants[..] == old(participants[..])
      ensures !loading ==> r == participants
      ensures multiset(participants[..]) == multiset(old(participants[..]))
      ensures !loading && Comparable(sortBy, old(participants[..])) ==> SortedBy(sortBy, participants[..])
    {
      if loading {
        r := new Participant[0];
        return;
      }
      SortInPlace(participants, sortBy);
      r := participants;
    }
  }
}
