/** The matching loop handles events at once but puts off its changes to the opposing book until it is done. That comes to the
    same as carrying out one action after the other. */
module Deferred {
  import opened Types
  import opened Accounts
  import opened BookSideModels
  import opened Matching
  import opened Exchanges
  import opened ExchangeSteps
  import opened ExchangeActions

  // ---------- changes first, then deletes ----------

  datatype Change = Change(comp: Component, key: nat, quantity: int)

  datatype Delete = Delete(comp: Component, key: nat)

  predicate IsChange(a: Action) { a.Match? && a.quantity != a.item.leaf.quantity }

  function ChangeOf(a: Action): Change
    requires a.Match?
  {
    Change(a.item.comp, a.item.leaf.key, a.item.leaf.quantity - a.quantity)
  }

  function DeleteOf(a: Action): Delete { Delete(a.item.comp, a.item.leaf.key) }

  function Changes(actions: seq<Action>): seq<Change> {
    if actions == [] then []
    else if IsChange(actions[0]) then [ChangeOf(actions[0])] + Changes(actions[1..]) else Changes(actions[1..])
  }

  function Deletes(actions: seq<Action>): seq<Delete> {
    if actions == [] then []
    else if IsChange(actions[0]) then Deletes(actions[1..]) else [DeleteOf(actions[0])] + Deletes(actions[1..])
  }

  function Changed(m: BookSideModel, changes: seq<Change>): BookSideModel
    decreases |changes|
  {
    if changes == [] then m
    else
      var x := changes[0];
      Changed(if x.key in m.Get(x.comp) then m.WithQuantity(x.comp, x.key, x.quantity) else m, changes[1..])
  }

  function Deleted(m: BookSideModel, deletes: seq<Delete>): BookSideModel
    decreases |deletes|
  {
    if deletes == [] then m else Deleted(m.Remove(deletes[0].comp, deletes[0].key), deletes[1..])
  }

  ghost predicate NotAbout(comp: Component, key: nat, changes: seq<Change>) {
    forall i :: 0 <= i < |changes| ==> changes[i].comp != comp || changes[i].key != key
  }

  /** Removing another order before or after the changes makes no difference. */
  lemma {:induction false} RemoveCommutes(m: BookSideModel, comp: Component, key: nat, changes: seq<Change>)
    requires NotAbout(comp, key, changes)
    ensures Changed(m, changes).Remove(comp, key) == Changed(m.Remove(comp, key), changes)
    decreases |changes|
  {
    if changes != [] {
      var x := changes[0];
      assert x.comp != comp || x.key != key;
      var m' := if x.key in m.Get(x.comp) then m.WithQuantity(x.comp, x.key, x.quantity) else m;
      OneRemoveCommutes(m, comp, key, x);
      RemoveCommutes(m', comp, key, changes[1..]);
    }
  }

  lemma OneRemoveCommutes(m: BookSideModel, comp: Component, key: nat, x: Change)
    requires x.comp != comp || x.key != key
    ensures x.key in m.Get(x.comp) <==> x.key in m.Remove(comp, key).Get(x.comp)
    ensures x.key in m.Get(x.comp) ==>
              m.WithQuantity(x.comp, x.key, x.quantity).Remove(comp, key) == m.Remove(comp, key).WithQuantity(x.comp, x.key, x.quantity)
  {
    if x.key in m.Get(x.comp) && x.comp == comp {
      var orders, leaf := m.Get(comp), m.Get(comp)[x.key].(quantity := x.quantity);
      assert orders[x.key := leaf] - {key} == (orders - {key})[x.key := leaf];
    }
  }

  lemma {:induction false} ChangesAreAbout(actions: seq<Action>, comp: Component, key: nat)
    requires forall i :: 0 <= i < |actions| ==> actions[i].item.comp != comp || actions[i].item.leaf.key != key
    ensures NotAbout(comp, key, Changes(actions))
  {
    if actions != [] {
      assert actions[0].item.comp != comp || actions[0].item.leaf.key != key;
      forall i | 0 <= i < |actions[1..]|
        ensures actions[1..][i].item.comp != comp || actions[1..][i].item.leaf.key != key
      {
        assert actions[1..][i] == actions[i + 1];
      }
      ChangesAreAbout(actions[1..], comp, key);
    }
  }

  /** All changes and then all deletes come to the same as the actions one after the other. */
  lemma {:induction false} DeferredIsDirect(m: BookSideModel, opp: Side, env: Env, actions: seq<Action>)
    requires Doable(m, opp, env, actions)
    ensures Deleted(Changed(m, Changes(actions)), Deletes(actions)) == BookAfterAll(m, actions)
    decreases |actions|
  {
    if actions != [] {
      var a, rest := actions[0], actions[1..];
      StillDoable(m, opp, env, actions);
      assert Shown(m, opp, a.item);
      hide Shown, Fits;
      DeferredIsDirect(BookAfter(m, a), opp, env, rest);
      forall i | 0 <= i < |rest|
        ensures rest[i].item.comp != a.item.comp || rest[i].item.leaf.key != a.item.leaf.key
      {
        assert !SameOrder(a.item, actions[i + 1].item);
      }
      hide Doable;
      FirstDeferred(m, opp, a, rest);
    }
  }

  lemma FirstDeferred(m: BookSideModel, opp: Side, a: Action, rest: seq<Action>)
    requires Shown(m, opp, a.item)
    requires forall i :: 0 <= i < |rest| ==> rest[i].item.comp != a.item.comp || rest[i].item.leaf.key != a.item.leaf.key
    ensures var actions := [a] + rest;
            Deleted(Changed(m, Changes(actions)), Deletes(actions))
            == Deleted(Changed(BookAfter(m, a), Changes(rest)), Deletes(rest))
  {
    var actions := [a] + rest;
    assert actions[0] == a && actions[1..] == rest;
    if !IsChange(a) {
      ChangesAreAbout(rest, a.item.comp, a.item.leaf.key);
      RemoveCommutes(m, a.item.comp, a.item.leaf.key, Changes(rest));
      assert Deletes(actions) == [DeleteOf(a)] + Deletes(rest);
      assert Deletes(actions)[1..] == Deletes(rest);
    } else {
      assert Changes(actions) == [ChangeOf(a)] + Changes(rest);
      assert Changes(actions)[1..] == Changes(rest);
    }
  }

  // ---------- nothing is missing ----------

  /** The orders that are to be changed are there, and so are those that are to be deleted, each once. */
  ghost predicate AllThere(m: BookSideModel, changes: seq<Change>, deletes: seq<Delete>) {
    && (forall i :: 0 <= i < |changes| ==> changes[i].key in m.Get(changes[i].comp))
    && (forall i :: 0 <= i < |deletes| ==> deletes[i].key in m.Get(deletes[i].comp))
    && (forall i, j :: 0 <= i < j < |deletes| ==> deletes[i] != deletes[j])
  }

  ghost predicate AmongDeletes(actions: seq<Action>, d: Delete) {
    exists i :: 0 <= i < |actions| && DeleteOf(actions[i]) == d
  }

  lemma {:induction false} DeletesAreActions(actions: seq<Action>)
    ensures forall i :: 0 <= i < |Deletes(actions)| ==> AmongDeletes(actions, Deletes(actions)[i])
  {
    if actions != [] {
      DeletesAreActions(actions[1..]);
      forall i | 0 <= i < |Deletes(actions)|
        ensures AmongDeletes(actions, Deletes(actions)[i])
      {
        if !IsChange(actions[0]) && i == 0 {
          assert DeleteOf(actions[0]) == Deletes(actions)[0];
        } else {
          var d := Deletes(actions)[i];
          assert AmongDeletes(actions[1..], d) by {
            assert Deletes(actions[1..])[if IsChange(actions[0]) then i else i - 1] == d;
          }
          var k :| 0 <= k < |actions[1..]| && DeleteOf(actions[1..][k]) == d;
          assert actions[k + 1] == actions[1..][k];
        }
      }
    }
  }

  /** The deferred changes and deletes never miss. */
  lemma {:induction false} NothingMissing(m: BookSideModel, opp: Side, env: Env, actions: seq<Action>)
    requires Doable(m, opp, env, actions)
    ensures AllThere(m, Changes(actions), Deletes(actions))
  {
    if actions != [] {
      var rest := actions[1..];
      assert Doable(m, opp, env, rest) by { TailDoable(m, opp, env, actions); }
      NothingMissing(m, opp, env, rest);
      assert Shown(m, opp, actions[0].item);
      if !IsChange(actions[0]) {
        DeletesAreActions(rest);
        forall i | 0 <= i < |Deletes(rest)|
          ensures Deletes(rest)[i] != DeleteOf(actions[0])
        {
          assert AmongDeletes(rest, Deletes(rest)[i]);
          var k :| 0 <= k < |rest| && DeleteOf(rest[k]) == Deletes(rest)[i];
          assert !SameOrder(actions[0].item, actions[k + 1].item);
        }
      }
    }
  }

  lemma TailDoable(m: BookSideModel, opp: Side, env: Env, actions: seq<Action>)
    requires Doable(m, opp, env, actions) && actions != []
    ensures Doable(m, opp, env, actions[1..])
  {
    forall i | 0 <= i < |actions[1..]|
      ensures Shown(m, opp, actions[1..][i].item) && Fits(env, actions[1..][i])
    {
      assert actions[1..][i] == actions[i + 1];
    }
    forall i, j | 0 <= i < j < |actions[1..]|
      ensures !SameOrder(actions[1..][i].item, actions[1..][j].item)
    {
      assert !SameOrder(actions[i + 1].item, actions[j + 1].item);
    }
  }

  /** Changes leave the same orders on the book. */
  lemma {:induction false} ChangedKeys(m: BookSideModel, changes: seq<Change>)
    ensures forall comp :: Changed(m, changes).Get(comp).Keys == m.Get(comp).Keys
    decreases |changes|
  {
    if changes != [] {
      var x := changes[0];
      ChangedKeys(if x.key in m.Get(x.comp) then m.WithQuantity(x.comp, x.key, x.quantity) else m, changes[1..]);
    }
  }

  lemma AllThereAfter(m: BookSideModel, changes: seq<Change>, deletes: seq<Delete>)
    requires AllThere(m, changes, deletes)
    ensures AllThere(Changed(m, changes), [], deletes)
  {
    ChangedKeys(m, changes);
    forall i | 0 <= i < |deletes|
      ensures deletes[i].key in Changed(m, changes).Get(deletes[i].comp)
    {
      assert deletes[i].key in m.Get(deletes[i].comp).Keys;
    }
  }

  /** One delete leaves the others to be done. */
  lemma AllThereNext(m: BookSideModel, deletes: seq<Delete>)
    requires AllThere(m, [], deletes) && deletes != []
    ensures AllThere(m.Remove(deletes[0].comp, deletes[0].key), [], deletes[1..])
  {
    var m', rest := m.Remove(deletes[0].comp, deletes[0].key), deletes[1..];
    forall i | 0 <= i < |rest|
      ensures rest[i].key in m'.Get(rest[i].comp)
    {
      assert rest[i] == deletes[i + 1] && deletes[0] != deletes[i + 1];
    }
  }

  // ---------- events do not see the books ----------

  /** The market with another opposing book. */
  function WithOther(ex: Exchange, opp: Side, m: BookSideModel): Exchange { ex.(orders := ex.orders.WithBook(opp, m)) }

  function WithOtherIn(r: Result<Exchange>, opp: Side, m: BookSideModel): Result<Exchange> {
    match r case Ok(ex) => Ok(WithOther(ex, opp, m)) case Err(e) => Err(e)
  }

  lemma OutIgnoresBooks(ex: Exchange, opp: Side, m: BookSideModel, env: Env, e: Event)
    requires e.Out?
    ensures ProcessOut(WithOther(ex, opp, m), env, e) == WithOtherIn(ProcessOut(ex, env, e), opp, m)
  {
  }

  lemma CancelIgnoresBooks(ex: Exchange, opp: Side, m: BookSideModel, p: Pubkey, slot: nat, quantity: int)
    ensures CancelFor(WithOther(ex, opp, m), p, slot, quantity) == WithOtherIn(CancelFor(ex, p, slot, quantity), opp, m)
  {
  }

  lemma FillIgnoresBooks(ex: Exchange, opp: Side, m: BookSideModel, env: Env, f: Event, processed: nat)
    requires f.Fill?
    ensures var r := ProcessFill(ex, env, f, processed);
            ProcessFill(WithOther(ex, opp, m), env, f, processed)
            == match r case Ok((x, n)) => Ok((WithOther(x, opp, m), n)) case Err(e) => Err(e)
  {
    hide ExecuteMaker, AmountsOfFill;
  }

  /** The events of an action, handled while the opposing book stays as it is. */
  function Eventful(ex: Exchange, env: Env, side: Side, a: Action, processed: nat): Result<(Exchange, nat)> {
    var opp, item := side.Invert(), a.item;
    match a
    case Drop(_) => var ex' :- ProcessOut(ex, env, OutOf(opp, item.leaf)); Ok((ex', processed))
    case Cancel(_) => var ex' :- CancelFor(ex, env.owner, item.leaf.ownerSlot, item.leaf.quantity); Ok((ex', processed))
    case Match(_, q) => ProcessFill(ex, env, FillFor(env, side, item, q), processed)
  }

  /** An action is its events and its change of the book, one independent of the other. */
  lemma ActionSplits(ex: Exchange, env: Env, side: Side, m: BookSideModel, a: Action, processed: nat)
    ensures var opp := side.Invert();
            ApplyAction(WithOther(ex, opp, m), env, side, a, processed)
            == match Eventful(ex, env, side, a, processed)
               case Ok((x, n)) => Ok((WithOther(x, opp, BookAfter(m, a)), n))
               case Err(e) => Err(e)
  {
    var opp, item := side.Invert(), a.item;
    BookReplaced(ex, opp, m, BookAfter(m, a));
    match a {
      case Drop(_) => OutIgnoresBooks(ex, opp, BookAfter(m, a), env, OutOf(opp, item.leaf)); hide ProcessOut;
      case Cancel(_) =>
        CancelIgnoresBooks(ex, opp, BookAfter(m, a), env.owner, item.leaf.ownerSlot, item.leaf.quantity);
        hide CancelFor;
      case Match(_, q) =>
        FillIgnoresBooks(ex, opp, BookAfter(m, a), env, FillFor(env, side, item, q), processed);
        hide ProcessFill;
    }
  }

  lemma BookReplaced(ex: Exchange, opp: Side, m: BookSideModel, m': BookSideModel)
    ensures WithOther(WithOther(ex, opp, m), opp, m') == WithOther(ex, opp, m')
    ensures WithOther(ex, opp, m).orders.Book(opp) == m
  {
  }

  // ---------- one more action ----------

  lemma {:induction false} OneMoreAction(ex: Exchange, env: Env, side: Side, done: seq<Action>, a: Action, processed: nat)
    ensures ApplyActions(ex, env, side, done + [a], processed)
         == match ApplyActions(ex, env, side, done, processed)
            case Ok((x, n)) => ApplyAction(x, env, side, a, n)
            case Err(e) => Err(e)
    decreases |done|
  {
    hide ApplyAction;
    if done == [] {
      assert done + [a] == [a] && [a][1..] == [];
      var r := ApplyAction(ex, env, side, a, processed);
      assert r.Ok? ==> ApplyActions(r.value.0, env, side, [a][1..], r.value.1) == Ok(r.value);
    } else {
      assert (done + [a])[0] == done[0] && (done + [a])[1..] == done[1..] + [a];
      var r := ApplyAction(ex, env, side, done[0], processed);
      if r.Ok? { OneMoreAction(r.value.0, env, side, done[1..], a, r.value.1); }
    }
  }

  lemma {:induction false} OneMoreBook(m: BookSideModel, done: seq<Action>, a: Action)
    ensures BookAfterAll(m, done + [a]) == BookAfter(BookAfterAll(m, done), a)
    decreases |done|
  {
    hide BookAfter;
    if done == [] {
      assert ([] + [a])[1..] == [];
    } else {
      assert (done + [a])[0] == done[0] && (done + [a])[1..] == done[1..] + [a];
      OneMoreBook(BookAfter(m, done[0]), done[1..], a);
    }
  }

  /** The failure of an early action is the failure of all. */
  lemma {:induction false} FailsEarly(ex: Exchange, env: Env, side: Side, done: seq<Action>, rest: seq<Action>, processed: nat)
    requires ApplyActions(ex, env, side, done, processed).Err?
    ensures ApplyActions(ex, env, side, done + rest, processed) == ApplyActions(ex, env, side, done, processed)
    decreases |done|
  {
    hide ApplyAction;
    if done != [] {
      assert (done + rest)[0] == done[0] && (done + rest)[1..] == done[1..] + rest;
      var r := ApplyAction(ex, env, side, done[0], processed);
      if r.Ok? { FailsEarly(r.value.0, env, side, done[1..], rest, r.value.1); }
    }
  }
}
