/**
 * lib/hooks/buzz.ts, `fetchBuzzers`: the buzzer presses, read in ascending order
 * of time, are reduced to the first press of each username; a failed read gives
 * the empty list instead of an error.
 */
module Buzz {
  import opened Wrappers
  import Ordering
  import opened Subsequences
  import opened Time

  datatype Buzzer = Buzzer(id: nat, username: string, timestamp: Timestamp)

  /** `buzzers.some(b => b.username === u)`: the check `AnswersStore.HasEntry` makes on answers, here on presses. */
  predicate HasUser(xs: seq<Buzzer>, u: string)
  {
    exists i :: 0 <= i < |xs| && xs[i].username == u
  }

  /** The value of the reduce's accumulator after the presses `xs`: each press is kept unless its username is already there. */
  function FirstPerUser(xs: seq<Buzzer>): (r: seq<Buzzer>)
    ensures |r| <= |xs|
    ensures forall i :: 0 <= i < |r| ==> r[i] in xs
  {
    if xs == [] then []
    else
      var acc := FirstPerUser(xs[..|xs| - 1]);
      if HasUser(acc, xs[|xs| - 1].username) then acc else acc + [xs[|xs| - 1]]
  }

  function ByTime(b: Buzzer): int { b.timestamp }

  /** No username occurs twice. */
  predicate DistinctUsers(xs: seq<Buzzer>)
  {
    forall i, j :: 0 <= i < j < |xs| ==> xs[i].username != xs[j].username
  }

  /** Index `i` is the first press of its username in `xs`. */
  predicate FirstOfUser(xs: seq<Buzzer>, i: nat)
    requires i < |xs|
  {
    forall j :: 0 <= j < i ==> xs[j].username != xs[i].username
  }

  /** The reduce of `fetchBuzzers`: a loop pushing into an accumulator. */
  method KeepFirstPerUser(data: seq<Buzzer>) returns (buzzers: seq<Buzzer>)
    ensures buzzers == FirstPerUser(data)
  {
    buzzers := [];
    var i := 0;
    while i < |data|
      invariant 0 <= i <= |data|
      invariant buzzers == FirstPerUser(data[..i])
    {
      assert data[..i + 1][..i] == data[..i];
      var current := data[i];
      var seen := false;
      var k := 0;
      while k < |buzzers|
        invariant 0 <= k <= |buzzers|
        invariant seen <==> HasUser(buzzers[..k], current.username)
      {
        assert buzzers[..k + 1] == buzzers[..k] + [buzzers[k]];
        seen := seen || buzzers[k].username == current.username;
        k := k + 1;
      }
      assert buzzers[..k] == buzzers;
      if !seen {
        buzzers := buzzers + [current];
      }
      i := i + 1;
    }
    assert data[..i] == data;
  }

  /** `fetchBuzzers`: the table read in ascending time, reduced; a failed read gives `[]`. */
  method FetchBuzzers(table: seq<Buzzer>, fault: Option<string>) returns (r: seq<Buzzer>)
    ensures fault.Some? ==> r == []
    ensures fault.None? ==> r == FirstPerUser(Ordering.SortBy(table, ByTime))
  {
    if fault.Some? {
      return [];
    }
    var data := Ordering.SortBy(table, ByTime);
    r := KeepFirstPerUser(data);
  }

  // ---------------------------------------------------------------------------
  // Properties of the reduce

  lemma {:induction false} FirstPerUserDistinct(xs: seq<Buzzer>)
    ensures DistinctUsers(FirstPerUser(xs))
  {
    if xs != [] {
      FirstPerUserDistinct(xs[..|xs| - 1]);
    }
  }

  lemma HasUserSnoc(xs: seq<Buzzer>, x: Buzzer, u: string)
    ensures HasUser(xs + [x], u) <==> HasUser(xs, u) || x.username == u
  {
    if HasUser(xs, u) {
      var i :| 0 <= i < |xs| && xs[i].username == u;
      assert (xs + [x])[i].username == u;
    }
    if HasUser(xs + [x], u) && x.username != u {
      var i :| 0 <= i < |xs| + 1 && (xs + [x])[i].username == u;
      assert xs[i].username == u;
    }
    assert (xs + [x])[|xs|] == x;
  }

  /** A username is in the output exactly when it is in the input. */
  lemma {:induction false} FirstPerUserUsers(xs: seq<Buzzer>, u: string)
    ensures HasUser(FirstPerUser(xs), u) <==> HasUser(xs, u)
  {
    if xs != [] {
      var init := xs[..|xs| - 1];
      var last := xs[|xs| - 1];
      assert xs == init + [last];
      FirstPerUserUsers(init, u);
      FirstPerUserUsers(init, last.username);
      HasUserSnoc(init, last, u);
      HasUserSnoc(FirstPerUser(init), last, u);
    }
  }

  /** The output keeps input presses in input order and changes or invents none. */
  lemma {:induction false} FirstPerUserSubsequence(xs: seq<Buzzer>)
    ensures IsSubsequence(FirstPerUser(xs), xs)
  {
    if xs != [] {
      var init := xs[..|xs| - 1];
      FirstPerUserSubsequence(init);
      var acc := FirstPerUser(init);
      if HasUser(acc, xs[|xs| - 1].username) {
        SubsequenceExtend(acc, init, xs[|xs| - 1]);
        assert init + [xs[|xs| - 1]] == xs;
      } else {
        assert (acc + [xs[|xs| - 1]])[..|acc|] == acc;
      }
    }
  }

  /** A press is kept exactly when it is the first press of its username. */
  lemma {:induction false} FirstPerUserKeepsFirsts(xs: seq<Buzzer>, b: Buzzer)
    ensures b in FirstPerUser(xs) <==> exists i :: 0 <= i < |xs| && xs[i] == b && FirstOfUser(xs, i)
  {
    if xs != [] {
      var n := |xs| - 1;
      var init := xs[..n];
      var acc := FirstPerUser(init);
      FirstPerUserKeepsFirsts(init, b);
      FirstPerUserUsers(init, xs[n].username);
      forall i | 0 <= i < n ensures FirstOfUser(xs, i) == FirstOfUser(init, i) {
        assert forall j :: 0 <= j < i ==> xs[j] == init[j];
      }
      if b in FirstPerUser(xs) {
        if b !in acc {
          assert b == xs[n] && !HasUser(acc, b.username);
          assert FirstOfUser(xs, n) by {
            forall j | 0 <= j < n ensures xs[j].username != xs[n].username {
              assert init[j].username == xs[j].username;
            }
          }
        } else {
          var i :| 0 <= i < |init| && init[i] == b && FirstOfUser(init, i);
          assert xs[i] == b && FirstOfUser(xs, i);
        }
      }
      if i :| 0 <= i < |xs| && xs[i] == b && FirstOfUser(xs, i) {
        if i < n {
          assert init[i] == b && FirstOfUser(init, i);
        } else {
          assert !HasUser(init, xs[n].username);
        }
      }
    }
  }

  /** On presses in ascending time, the kept press of each username is its earliest. */
  lemma EarliestPressKept(xs: seq<Buzzer>, b: Buzzer, j: nat)
    requires Ordering.SortedBy(xs, ByTime)
    requires b in FirstPerUser(xs) && j < |xs| && xs[j].username == b.username
    ensures b.timestamp <= xs[j].timestamp
  {
    FirstPerUserKeepsFirsts(xs, b);
    var i :| 0 <= i < |xs| && xs[i] == b && FirstOfUser(xs, i);
    assert i <= j;
    if i < j {
      assert ByTime(xs[i]) <= ByTime(xs[j]);
    }
  }

  /** Presses with distinct usernames come out unchanged. */
  lemma {:induction false} FirstPerUserOfDistinct(xs: seq<Buzzer>)
    requires DistinctUsers(xs)
    ensures FirstPerUser(xs) == xs
  {
    if xs != [] {
      var init := xs[..|xs| - 1];
      assert DistinctUsers(init);
      FirstPerUserOfDistinct(init);
      FirstPerUserUsers(init, xs[|xs| - 1].username);
      assert init + [xs[|xs| - 1]] == xs;
    }
  }

  /** De-duplicating twice gives what de-duplicating once gives. */
  lemma FirstPerUserIdempotent(xs: seq<Buzzer>)
    ensures FirstPerUser(FirstPerUser(xs)) == FirstPerUser(xs)
  {
    FirstPerUserDistinct(xs);
    FirstPerUserOfDistinct(FirstPerUser(xs));
  }
}
