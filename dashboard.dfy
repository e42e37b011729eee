/**
 * The dashboard page of the client
 * (client/src/app/dashboard/dashboard.component.ts): the participants who
 * drank at least once, kept in the order the server sent them.
 */
module Dashboard {
  import opened Leaderboard

  /** `participants().filter(p => p.drink_days > 0)`, line 26. */
  function Champions(s: seq<Participant>): (r: seq<Participant>)
    ensures |r| <= |s|
    ensures forall k :: 0 <= k < |r| ==> r[k].drinkDays > 0 && r[k] in s
  {
    if s == [] then []
    else if s[0].drinkDays > 0 then [s[0]] + Champions(s[1..])
    else Champions(s[1..])
  }

  /** No participant who drank is dropped. */
  lemma {:induction false} ChampionsComplete(s: seq<Participant>)
    ensures forall k :: 0 <= k < |s| && s[k].drinkDays > 0 ==> s[k] in Champions(s)
  {
    if s != [] {
      ChampionsComplete(s[1..]);
      forall k | 0 < k < |s| && s[k].drinkDays > 0
        ensures s[k] in Champions(s)
      {
        assert s[k] == s[1..][k - 1];
      }
    }
  }

  /** Filtering distributes over concatenation: the order of the list is kept. */
  lemma {:induction false} ChampionsKeepOrder(s: seq<Participant>, t: seq<Participant>)
    ensures Champions(s + t) == Champions(s) + Champions(t)
  {
    if s == [] {
      assert s + t == t;
    } else {
      assert (s + t)[1..] == s[1..] + t;
      ChampionsKeepOrder(s[1..], t);
    }
  }

  /** The result is the whole list exactly when everybody drank. */
  lemma {:induction false} ChampionsAllWhenAllDrank(s: seq<Participant>)
    ensures Champions(s) == s <==> forall k :: 0 <= k < |s| ==> s[k].drinkDays > 0
  {
    if forall k :: 0 <= k < |s| ==> s[k].drinkDays > 0 {
      AllDrankKept(s);
    }
  }

  /** When everybody drank, nobody is dropped. */
  lemma {:induction false} AllDrankKept(s: seq<Participant>)
    requires forall k :: 0 <= k < |s| ==> s[k].drinkDays > 0
    ensures Champions(s) == s
  {
    if s != [] {
      forall k | 0 <= k < |s[1..]|
        ensures s[1..][k].drinkDays > 0
      {
        assert s[1..][k] == s[k + 1];
      }
      AllDrankKept(s[1..]);
    }
  }

  /** Filtering twice changes nothing. */
  lemma {:induction false} ChampionsIdempotent(s: seq<Participant>)
    ensures Champions(Champions(s)) == Champions(s)
  {
    ChampionsAllWhenAllDrank(Champions(s));
  }

  /** The dashboard page: loading flag and the participants of the response. */
  class DashboardComponent {
    var loading: bool
    var participants: seq<Participant>

    /** Lines 24-25: loading, no participants yet. */
    constructor ()
      ensures loading && participants == []
    {
      loading := true;
      participants := [];
    }

    /** Lines 32-36: the response replaces the participants, then loading ends. */
    method OnResponse(response: seq<Participant>)
      modifies this
      ensures participants == response && !loading
    {
      participants := response;
      loading := false;
    }

    /** The `champions` signal of line 26. */
    function ChampionList(): (r: seq<Participant>)
      reads this
      ensures forall k :: 0 <= k < |r| ==> r[k].drinkDays > 0 && r[k] in participants
      ensures forall k :: 0 <= k < |participants| && participants[k].drinkDays > 0 ==> participants[k] in r
    {
      ChampionsComplete(participants);
      Champions(participants)
    }
  }
}
