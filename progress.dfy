/**
 * The progress calculator: the completion percentage a task card shows,
 * computed from the task's activity list.
 */
module Progress {
  import opened Wrappers
  import opened Activities

  /** `activities.filter(act => act.completed).length`. */
  function CountCompleted(acts: seq<Activity>): (n: nat)
    ensures n <= |acts|
    ensures n == |acts| <==> forall i :: 0 <= i < |acts| ==> acts[i].completed
    ensures n == 0 <==> forall i :: 0 <= i < |acts| ==> !acts[i].completed
  {
    if acts == [] then 0
    else
      assert forall i :: 1 <= i < |acts| ==> acts[i] == acts[1..][i - 1];
      (if acts[0].completed then 1 else 0) + CountCompleted(acts[1..])
  }

  /**
   * `calculateProgress`: 0 for an absent or empty list; otherwise the
   * percentage of completed entries rounded half up, that is the integer r
   * with r - 1/2 <= 100 * completed / length < r + 1/2, which lies in 0..100.
   */
  function CalculateProgress(activities: Option<seq<Activity>>): (r: nat)
    ensures r <= 100
    ensures activities == None || activities == Some([]) ==> r == 0
    ensures activities.Some? && |activities.value| > 0 ==>
              var n, k := |activities.value|, CountCompleted(activities.value);
              r * (2 * n) <= 200 * k + n < (r + 1) * (2 * n)
  {
    match activities
    case None => 0
    case Some(acts) =>
      if |acts| == 0 then 0
      else RoundedPercent(CountCompleted(acts), |acts|)
  }

  /** 100 * k / n rounded half up, for 0 <= k <= n and n > 0. */
  function RoundedPercent(k: nat, n: nat): (r: nat)
    requires 0 < n && k <= n
    ensures r <= 100
    ensures r * (2 * n) <= 200 * k + n < (r + 1) * (2 * n)
  {
    var x, d := 200 * k + n, 2 * n;
    var q := x / d;
    assert q * d + x % d == x && 0 <= x % d < d;
    assert q <= 100 by {
      if q > 100 {
        MulMonotone(101, q, d);
      }
    }
    q
  }

  /** Multiplying by a natural number is monotone. */
  lemma {:induction false} MulMonotone(a: nat, b: nat, m: nat)
    requires a <= b
    ensures a * m <= b * m
  {
    if m > 0 {
      MulMonotone(a, b, m - 1);
      assert a * m == a * (m - 1) + a;
      assert b * m == b * (m - 1) + b;
    }
  }

  /** A list whose every entry is completed shows 100%. */
  lemma ProgressAllCompleted(acts: seq<Activity>)
    requires |acts| > 0
    requires forall i :: 0 <= i < |acts| ==> acts[i].completed
    ensures CalculateProgress(Some(acts)) == 100
  {
    var r, n := CalculateProgress(Some(acts)), |acts|;
    if r < 100 {
      MulMonotone(r + 1, 100, 2 * n);
    }
  }

  /** A list with no completed entry shows 0%. */
  lemma ProgressNoneCompleted(acts: seq<Activity>)
    requires forall i :: 0 <= i < |acts| ==> !acts[i].completed
    ensures CalculateProgress(Some(acts)) == 0
  {
    var r, n := CalculateProgress(Some(acts)), |acts|;
    if n > 0 && r > 0 {
      MulMonotone(1, r, 2 * n);
    }
  }

  /** Concrete values: no entries, one completed entry, one of three completed. */
  lemma ProgressExamples(a: Activity, b: Activity, c: Activity)
    requires a.completed && !b.completed && !c.completed
    ensures CalculateProgress(None) == 0
    ensures CalculateProgress(Some([])) == 0
    ensures CalculateProgress(Some([a])) == 100
    ensures CalculateProgress(Some([a, b, c])) == 33
  {
    assert CountCompleted([a]) == 1 by {
      assert [a][1..] == [];
    }
    assert CountCompleted([a, b, c]) == 1 by {
      assert [a, b, c][1..] == [b, c];
      assert [b, c][1..] == [c];
      assert [c][1..] == [];
    }
  }

  /** Marking entries completed never lowers the completed count. */
  lemma {:induction false} CompletingNeverLowersCount(acts: seq<Activity>, id: ActivityId)
    ensures CountCompleted(SetStatus(acts, id, true)) >= CountCompleted(acts)
  {
    if acts != [] {
      var r := SetStatus(acts, id, true);
      assert r[1..] == SetStatus(acts[1..], id, true);
      CompletingNeverLowersCount(acts[1..], id);
    }
  }

  /** Completing an activity never lowers the task's progress. */
  lemma CompletingNeverLowersProgress(acts: seq<Activity>, id: ActivityId)
    ensures CalculateProgress(Some(SetStatus(acts, id, true))) >= CalculateProgress(Some(acts))
  {
    var n := |acts|;
    if n > 0 {
      CompletingNeverLowersCount(acts, id);
      var r, r' := CalculateProgress(Some(acts)), CalculateProgress(Some(SetStatus(acts, id, true)));
      if r' < r {
        MulMonotone(r' + 1, r, 2 * n);
      }
    }
  }
}
