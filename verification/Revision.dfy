/** Optimistic concurrency on an Azure DevOps work item. Every write is a JSON Patch that
    starts with a test on /rev (section 4.6 of RFC 6902), so it lands whole on the
    revision it names or not at all (section 5). Other writers may act before every
    request; the history records who wrote each revision. */
module Revision {
  import opened Text

  datatype Relation = Relation(rel: string, url: string)

  datatype Item = Item(tags: seq<string>, relations: seq<Relation>, state: string, fields: map<string, string>)

  datatype Edit = SetTags(tags: seq<string>) | AddRelation(relation: Relation) | SetField(name: string, value: string)

  /** A patch after its /rev test: a System.State change, if any, and other edits. */
  datatype Patch = Patch(state: Option<string>, edits: seq<Edit>)

  datatype Writer = Ours | Theirs

  datatype Version = Version(item: Item, writer: Writer)

  /** Lost is a request whose outcome the caller never learns. */
  datatype Response = Landed(item: Item) | Conflict | Refused | Lost

  function Edited(item: Item, edit: Edit): Item {
    match edit
    case SetTags(tags) => item.(tags := tags)
    case AddRelation(relation) => item.(relations := item.relations + [relation])
    case SetField(name, value) => item.(fields := item.fields[name := value])
  }

  function EditedAll(item: Item, edits: seq<Edit>): Item {
    if edits == [] then item else Edited(EditedAll(item, edits[..|edits| - 1]), edits[|edits| - 1])
  }

  function Patched(item: Item, patch: Patch): Item {
    var edited := EditedAll(item, patch.edits);
    if patch.state.Some? then edited.(state := patch.state.value) else edited
  }

  /** No edit touches the state. */
  lemma {:induction false} EditsKeepState(item: Item, edits: seq<Edit>)
    ensures EditedAll(item, edits).state == item.state
  {
    if edits != [] {
      EditsKeepState(item, edits[..|edits| - 1]);
    }
  }

  /** The last edit of a field decides its value. */
  lemma {:induction false} LastEditDecides(item: Item, edits: seq<Edit>, i: nat, value: string)
    requires i < |edits| && edits[i].SetField? && edits[i].value == value
    requires forall j :: i < j < |edits| && edits[j].SetField? ==> edits[j].name != edits[i].name
    ensures edits[i].name in EditedAll(item, edits).fields && EditedAll(item, edits).fields[edits[i].name] == value
  {
    if i < |edits| - 1 {
      LastEditDecides(item, edits[..|edits| - 1], i, value);
    }
  }

  /** Nothing from revision n on is ours. */
  ghost predicate WroteNothing(history: seq<Version>, n: nat) {
    forall j :: n <= j < |history| ==> history[j].writer == Theirs
  }

  /** From revision n on exactly version k is ours, and it is patch applied to the version
      right before it. */
  ghost predicate WroteOnce(history: seq<Version>, n: nat, k: nat, patch: Patch) {
    && 0 < n <= k < |history|
    && history[k].writer == Ours
    && (forall j :: n <= j < |history| && j != k ==> history[j].writer == Theirs)
    && history[k].item == Patched(history[k - 1].item, patch)
  }

  /** One work item on the server; revision r is history[r - 1]. */
  class Server {
    var item: Item
    var rev: nat
    ghost var history: seq<Version>
    ghost var conflicts: nat
    ghost var refusals: nat

    ghost predicate Valid()
      reads this
    {
      rev == |history| > 0 && item == history[rev - 1].item
    }

    /** Other writers take any number of turns. */
    method Interfere()
      requires Valid()
      modifies this
      ensures Valid() && old(history) <= history
      ensures WroteNothing(history, |old(history)|)
      ensures unchanged(`conflicts) && unchanged(`refusals)
    {
      var turns: nat := *;
      while turns > 0
        invariant Valid() && old(history) <= history && WroteNothing(history, |old(history)|)
        invariant unchanged(`conflicts) && unchanged(`refusals)
        decreases turns
      {
        var written: Item := *;
        item, rev, history := written, rev + 1, history + [Version(written, Theirs)];
        turns := turns - 1;
      }
    }

    /** A PATCH guarded by a test on the revision. It never lands on another revision, and
        when it does not land nothing changes. */
    method Send(test: nat, patch: Patch) returns (response: Response)
      requires Valid()
      modifies this
      ensures Valid()
      ensures response.Landed? ==> response.item == item
      ensures history == old(history) ||
              (test == |old(history)| && history == old(history) + [Version(Patched(old(item), patch), Ours)])
      ensures history == old(history) <== response.Conflict? || response.Refused?
      ensures response.Landed? ==> history != old(history)
      ensures conflicts == old(conflicts) + (if response.Conflict? then 1 else 0)
      ensures refusals == old(refusals) + (if response.Refused? then 1 else 0)
    {
      var lands: bool, reports: bool, refuses: bool := *, *, *;
      if !reports {
        response := Lost;
      } else if test == rev && lands {
        response := Landed(Patched(item, patch));
      } else if test == rev && refuses {
        response := Refused;
        refusals := refusals + 1;
      } else {
        response := Conflict;
        conflicts := conflicts + 1;
      }
      if test == rev && lands {
        item := Patched(item, patch);
        rev, history := rev + 1, history + [Version(item, Ours)];
      }
    }

    /** A read, with whatever others wrote before it. */
    method Get() returns (read: Item, revision: nat)
      requires Valid()
      modifies this
      ensures Valid() && old(history) <= history && WroteNothing(history, |old(history)|)
      ensures 0 < revision == |history| && read == history[revision - 1].item
      ensures unchanged(`conflicts) && unchanged(`refusals)
    {
      Interfere();
      return item, rev;
    }

    /** A guarded write, with whatever others wrote before it: it lands, if at all, exactly
        once, on the revision it names and as the patch of that very revision. */
    method Write(test: nat, patch: Patch) returns (response: Response)
      requires Valid() && 0 < test <= |history|
      modifies this
      ensures Valid() && old(history) <= history
      ensures response.Landed? ==>
                WroteOnce(history, |old(history)|, test, patch) && response.item == history[test].item
      ensures response.Conflict? || response.Refused? ==> WroteNothing(history, |old(history)|)
      ensures WroteNothing(history, |old(history)|) || WroteOnce(history, |old(history)|, test, patch)
      ensures conflicts == old(conflicts) + (if response.Conflict? then 1 else 0)
      ensures refusals == old(refusals) + (if response.Refused? then 1 else 0)
    {
      Interfere();
      response := Send(test, patch);
    }
  }
}
