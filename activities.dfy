/**
 * The `Activity` record of a task's checklist and the three whole-list
 * rewrites the task store performs on a task's `activities` array: append,
 * map-replace of the `completed` flag, and filter-remove by id.
 */
module Activities {

  type ActivityId = string

  /** One checklist entry: a uuid, its trimmed text and its completion status. */
  datatype Activity = Activity(id: ActivityId, text: string, completed: bool)

  /** Some entry of `acts` has identifier `id`. */
  predicate HasId(acts: seq<Activity>, id: ActivityId) {
    exists i :: 0 <= i < |acts| && acts[i].id == id
  }

  /** No two entries share an identifier. */
  predicate DistinctIds(acts: seq<Activity>) {
    forall i, j :: 0 <= i < j < |acts| ==> acts[i].id != acts[j].id
  }

  /** Some entry with identifier `id` has a `completed` flag other than `c`. */
  predicate NeedsUpdate(acts: seq<Activity>, id: ActivityId, c: bool) {
    exists i :: 0 <= i < |acts| && acts[i].id == id && acts[i].completed != c
  }

  /** The callback of the status-update `map`: set `completed` on a matching entry. */
  function Mark(a: Activity, id: ActivityId, c: bool): (r: Activity)
    ensures r.id == a.id && r.text == a.text
    ensures r.completed == if a.id == id then c else a.completed
  {
    if a.id == id then a.(completed := c) else a
  }

  /**
   * The list the status update writes back: every entry with identifier `id`
   * has `completed` set to `c`, every other field and every other entry is
   * unchanged, and the length and order are kept.
   */
  function SetStatus(acts: seq<Activity>, id: ActivityId, c: bool): (r: seq<Activity>)
    ensures |r| == |acts|
    ensures forall i :: 0 <= i < |r| ==> r[i].id == acts[i].id && r[i].text == acts[i].text
    ensures forall i :: 0 <= i < |r| && acts[i].id == id ==> r[i].completed == c
    ensures forall i :: 0 <= i < |r| && acts[i].id != id ==> r[i] == acts[i]
  {
    seq(|acts|, i requires 0 <= i < |acts| => Mark(acts[i], id, c))
  }

  /**
   * The `map` of the status update together with its two `let` flags: one pass
   * over the list that builds the rewritten list, records whether `id` occurs
   * (`activityFound`) and whether any matching entry had to change (`needsUpdate`).
   */
  method ScanStatus(acts: seq<Activity>, id: ActivityId, c: bool)
    returns (updated: seq<Activity>, found: bool, needsUpdate: bool)
    ensures updated == SetStatus(acts, id, c)
    ensures found == HasId(acts, id)
    ensures needsUpdate == NeedsUpdate(acts, id, c)
  {
    updated, found, needsUpdate := [], false, false;
    var i := 0;
    while i < |acts|
      invariant 0 <= i <= |acts|
      invariant |updated| == i
      invariant forall j :: 0 <= j < i ==> updated[j] == Mark(acts[j], id, c)
      invariant found <==> exists j :: 0 <= j < i && acts[j].id == id
      invariant needsUpdate <==> exists j :: 0 <= j < i && acts[j].id == id && acts[j].completed != c
    {
      var a := acts[i];
      if a.id == id {
        found := true;
        if a.completed != c {
          needsUpdate := true;
          updated := updated + [a.(completed := c)];
        } else {
          updated := updated + [a];
        }
      } else {
        updated := updated + [a];
      }
      i := i + 1;
    }
  }

  /**
   * The `filter` of activity deletion: the entries whose identifier is not `id`.
   * Nothing with identifier `id` survives, everything else does, and the list
   * is shorter exactly when `id` occurred.
   */
  function Without(acts: seq<Activity>, id: ActivityId): (r: seq<Activity>)
    ensures |r| <= |acts|
    ensures forall a :: a in r ==> a in acts && a.id != id
    ensures forall a :: a in acts && a.id != id ==> a in r
    ensures |r| == |acts| <==> !HasId(acts, id)
  {
    if acts == [] then []
    else
      HasIdCons(acts, id);
      if acts[0].id == id then Without(acts[1..], id)
      else [acts[0]] + Without(acts[1..], id)
  }

  /** `HasId` on a non-empty list, split into its head and tail. */
  lemma HasIdCons(acts: seq<Activity>, id: ActivityId)
    requires acts != []
    ensures HasId(acts, id) <==> acts[0].id == id || HasId(acts[1..], id)
  {
    if HasId(acts[1..], id) {
      var i :| 0 <= i < |acts[1..]| && acts[1..][i].id == id;
      assert acts[i + 1].id == id;
    }
    if HasId(acts, id) && acts[0].id != id {
      var i :| 0 <= i < |acts| && acts[i].id == id;
      assert acts[1..][i - 1].id == id;
    }
  }

  /** Filtering distributes over concatenation, so the survivors keep their order. */
  lemma {:induction false} WithoutAppend(a: seq<Activity>, b: seq<Activity>, id: ActivityId)
    ensures Without(a + b, id) == Without(a, id) + Without(b, id)
  {
    if a == [] {
      assert a + b == b;
    } else {
      assert (a + b)[0] == a[0];
      assert (a + b)[1..] == a[1..] + b;
      WithoutAppend(a[1..], b, id);
    }
  }

  /** Removing an identifier that does not occur leaves the list as it was. */
  lemma {:induction false} WithoutAbsent(acts: seq<Activity>, id: ActivityId)
    requires !HasId(acts, id)
    ensures Without(acts, id) == acts
  {
    if acts != [] {
      HasIdCons(acts, id);
      WithoutAbsent(acts[1..], id);
      assert acts == [acts[0]] + acts[1..];
    }
  }

  /** Removing the entry just appended under a fresh identifier restores the old list. */
  lemma WithoutAfterAppend(acts: seq<Activity>, x: Activity)
    requires !HasId(acts, x.id)
    ensures Without(acts + [x], x.id) == acts
  {
    WithoutAppend(acts, [x], x.id);
    WithoutAbsent(acts, x.id);
    assert Without([x], x.id) == Without([x][1..], x.id);
    assert [x][1..] == [];
  }

  /** Filtering keeps identifiers distinct. */
  lemma {:induction false} WithoutKeepsDistinct(acts: seq<Activity>, id: ActivityId)
    requires DistinctIds(acts)
    ensures DistinctIds(Without(acts, id))
  {
    if acts != [] {
      var rest := acts[1..];
      DistinctTail(acts);
      WithoutKeepsDistinct(rest, id);
      if acts[0].id != id {
        var w := Without(rest, id);
        forall a | a in w ensures a.id != acts[0].id {
          var k :| 0 <= k < |rest| && rest[k] == a;
          assert acts[k + 1] == a;
        }
        ConsDistinct(acts[0], w);
      }
    }
  }

  /** The tail of a list with distinct identifiers has distinct identifiers. */
  lemma DistinctTail(acts: seq<Activity>)
    requires acts != [] && DistinctIds(acts)
    ensures DistinctIds(acts[1..])
  {
    var rest := acts[1..];
    forall i, j | 0 <= i < j < |rest| ensures rest[i].id != rest[j].id {
      assert rest[i] == acts[i + 1] && rest[j] == acts[j + 1];
    }
  }

  /** Putting an entry whose identifier is new in front keeps identifiers distinct. */
  lemma ConsDistinct(x: Activity, w: seq<Activity>)
    requires DistinctIds(w)
    requires forall a :: a in w ==> a.id != x.id
    ensures DistinctIds([x] + w)
  {
    var r := [x] + w;
    forall i, j | 0 <= i < j < |r| ensures r[i].id != r[j].id {
      assert r[j] == w[j - 1];
      if i > 0 {
        assert r[i] == w[i - 1];
      }
    }
  }

  /** Appending an entry under an identifier not yet in the list keeps identifiers distinct. */
  lemma AppendKeepsDistinct(acts: seq<Activity>, x: Activity)
    requires DistinctIds(acts) && !HasId(acts, x.id)
    ensures DistinctIds(acts + [x])
  {
    var r := acts + [x];
    forall i, j | 0 <= i < j < |r| ensures r[i].id != r[j].id {
      if j == |acts| {
        assert r[i] == acts[i];
      } else {
        assert r[i] == acts[i] && r[j] == acts[j];
      }
    }
  }

  /**
   * With distinct identifiers the status update concerns one entry: the entry
   * at `i` carrying `id` is the only one that can change.
   */
  lemma SetStatusWithDistinctIds(acts: seq<Activity>, id: ActivityId, c: bool, i: nat)
    requires DistinctIds(acts) && i < |acts| && acts[i].id == id
    ensures SetStatus(acts, id, c)[i] == acts[i].(completed := c)
    ensures forall j :: 0 <= j < |acts| && j != i ==> SetStatus(acts, id, c)[j] == acts[j]
  {
    forall j | 0 <= j < |acts| && j != i ensures acts[j].id != id {
      if j < i {
        assert acts[j].id != acts[i].id;
      } else {
        assert acts[i].id != acts[j].id;
      }
    }
  }

  /** With distinct identifiers, deleting an identifier that occurs removes exactly one entry. */
  lemma {:induction false} WithoutWithDistinctIds(acts: seq<Activity>, id: ActivityId)
    requires DistinctIds(acts) && HasId(acts, id)
    ensures |Without(acts, id)| == |acts| - 1
  {
    HasIdCons(acts, id);
    DistinctTail(acts);
    if acts[0].id == id {
      DistinctHeadAbsent(acts);
      WithoutAbsent(acts[1..], id);
    } else {
      WithoutWithDistinctIds(acts[1..], id);
    }
  }

  /** In a list with distinct identifiers, the head's identifier does not recur in the tail. */
  lemma DistinctHeadAbsent(acts: seq<Activity>)
    requires acts != [] && DistinctIds(acts)
    ensures !HasId(acts[1..], acts[0].id)
  {
    forall k | 0 <= k < |acts| - 1 ensures acts[1..][k].id != acts[0].id {
      assert acts[1..][k] == acts[k + 1];
    }
  }

  /**
   * The status update writes only when it must: the rewritten list equals the
   * old one exactly when no matching entry had a different `completed` flag.
   * In particular an identifier that does not occur never needs a write.
   */
  lemma SetStatusUnchangedIff(acts: seq<Activity>, id: ActivityId, c: bool)
    ensures SetStatus(acts, id, c) == acts <==> !NeedsUpdate(acts, id, c)
    ensures !HasId(acts, id) ==> !NeedsUpdate(acts, id, c)
  {
    var r := SetStatus(acts, id, c);
    if NeedsUpdate(acts, id, c) {
      var i :| 0 <= i < |acts| && acts[i].id == id && acts[i].completed != c;
      assert r[i].completed != acts[i].completed;
    } else {
      forall i | 0 <= i < |acts| ensures r[i] == acts[i] {
        if acts[i].id == id {
          assert acts[i].completed == c;
        }
      }
    }
  }

  /**
   * After one status update, the same update finds nothing to change, and
   * applying it again returns the same list: a repeated call writes nothing.
   */
  lemma SetStatusSettles(acts: seq<Activity>, id: ActivityId, c: bool)
    ensures !NeedsUpdate(SetStatus(acts, id, c), id, c)
    ensures SetStatus(SetStatus(acts, id, c), id, c) == SetStatus(acts, id, c)
  {
    SetStatusUnchangedIff(SetStatus(acts, id, c), id, c);
  }

  /** The status update keeps identifiers and hence their distinctness and occurrence. */
  lemma SetStatusKeepsIds(acts: seq<Activity>, id: ActivityId, c: bool, other: ActivityId)
    ensures DistinctIds(acts) ==> DistinctIds(SetStatus(acts, id, c))
    ensures HasId(SetStatus(acts, id, c), other) <==> HasId(acts, other)
  {
    var r := SetStatus(acts, id, c);
    if HasId(r, other) {
      var i :| 0 <= i < |r| && r[i].id == other;
      assert acts[i].id == other;
    }
    if HasId(acts, other) {
      var i :| 0 <= i < |acts| && acts[i].id == other;
      assert r[i].id == other;
    }
  }
}
