/**
 * The member picker of the group editor: `toggleMember` adds a user id to a
 * group's member list, or removes every occurrence of it.
 */
module Members {
  import opened Seqs

  /** `memberIds.filter((m) => m !== id)`. */
  function Remove(ms: seq<string>, id: string): (r: seq<string>)
    ensures id !in r
    ensures forall x :: x != id ==> (x in r <==> x in ms)
  {
    FilterMembers(ms, (m: string) => m != id);
    Filter(ms, (m: string) => m != id)
  }

  /** `toggleMember(memberIds, id)`. */
  function Toggle(ms: seq<string>, id: string): seq<string> {
    if id in ms then Remove(ms, id) else ms + [id]
  }

  /** A present id disappears completely; an absent one is appended at the end. */
  lemma ToggleShape(ms: seq<string>, id: string)
    ensures id in ms ==> id !in Toggle(ms, id)
    ensures id !in ms ==> Toggle(ms, id) == ms + [id]
  {
  }

  /** Membership of `id` flips and membership of every other value is unchanged. */
  lemma ToggleMembership(ms: seq<string>, id: string)
    ensures id in Toggle(ms, id) <==> id !in ms
    ensures forall x :: x != id ==> (x in Toggle(ms, id) <==> x in ms)
  {
  }

  /** Removing an id that is not there changes nothing. */
  lemma RemoveAbsent(ms: seq<string>, id: string)
    requires id !in ms
    ensures Remove(ms, id) == ms
  {
    FilterAll(ms, (m: string) => m != id);
  }

  /** The values other than `id` keep their order: ignoring `id`, toggling changes nothing. */
  lemma ToggleKeepsOthers(ms: seq<string>, id: string)
    ensures Remove(Toggle(ms, id), id) == Remove(ms, id)
  {
    if id in ms {
      FilterIdempotent(ms, (m: string) => m != id);
    } else {
      FilterConcat(ms, [id], (m: string) => m != id);
      assert Remove([id], id) == [];
    }
  }

  /** Toggling an absent id twice restores the list. */
  lemma ToggleTwiceAbsent(ms: seq<string>, id: string)
    requires id !in ms
    ensures Toggle(Toggle(ms, id), id) == ms
  {
    ToggleKeepsOthers(ms, id);
    RemoveAbsent(ms, id);
  }

  /** Toggling a present id twice moves it to the end, once. */
  lemma ToggleTwicePresent(ms: seq<string>, id: string)
    requires id in ms
    ensures Toggle(Toggle(ms, id), id) == Remove(ms, id) + [id]
  {
  }

  /** A list without repetitions stays without repetitions. */
  lemma {:induction false} RemoveDistinct(ms: seq<string>, id: string)
    requires Distinct(ms)
    ensures Distinct(Remove(ms, id))
  {
    if ms != [] {
      RemoveDistinct(ms[1..], id);
      assert ms == [ms[0]] + ms[1..];
      FilterConcat([ms[0]], ms[1..], (m: string) => m != id);
      assert ms[0] !in ms[1..];
      assert Remove(ms, id) == Remove([ms[0]], id) + Remove(ms[1..], id);
    }
  }

  /**
   * Toggling keeps a member list free of repetitions, the condition under
   * which the users' rebuilt `groups` list each group at most once.
   */
  lemma ToggleDistinct(ms: seq<string>, id: string)
    requires Distinct(ms)
    ensures Distinct(Toggle(ms, id))
  {
    if id in ms {
      RemoveDistinct(ms, id);
    } else {
      var r := ms + [id];
      assert forall i, j :: 0 <= i < j < |r| ==> r[i] != r[j] by {
        forall i, j | 0 <= i < j < |r| ensures r[i] != r[j] {
          if j == |ms| { assert r[i] == ms[i]; }
        }
      }
    }
  }
}
