/** A new order keeps the invariant: what it makes due is what its taker is charged. */
module ExchangeOrders {
  import opened Types
  import opened Rankings
  import opened Prices
  import opened Markets
  import opened Accounts
  import opened Ledgers
  import opened BookSideModels
  import opened Iterations
  import opened Matching
  import opened MatchingLaws
  import opened Posting
  import opened Exchanges
  import opened ExchangeInvariants
  import opened ExchangeSteps
  import opened ExchangeActions
  import opened ExchangePosting

  // ---------- the walk can be carried out ----------

  lemma ItemIsShown(m: BookSideModel, opp: Side, item: Item, now: int, oracle: Option<int>)
    requires BookOk(m) && ShowsOrder(item, opp, Ranked(opp, m.fixed), Ranked(opp, m.pegged), now, oracle)
    ensures Shown(m, opp, item)
  {
    RankedIsRanked(opp, m.fixed);
    RankedIsRanked(opp, m.pegged);
    hide Ranked, StrictlyRanked;
    ShownPrice(item, opp, Ranked(opp, m.fixed), Ranked(opp, m.pegged), now, oracle);
    assert item.leaf.key in m.Get(item.comp) && m.Get(item.comp)[item.leaf.key] == item.leaf;
    assert if item.comp.Fixed? then FixedOk(item.leaf) else PeggedOk(item.leaf);
  }

  ghost predicate AllShown(items: seq<Item>, opp: Side, m: BookSideModel, now: int, oracle: Option<int>) {
    forall i :: 0 <= i < |items| ==> ShowsOrder(items[i], opp, Ranked(opp, m.fixed), Ranked(opp, m.pegged), now, oracle)
  }

  lemma ActionsShown(items: seq<Item>, m: BookSideModel, opp: Side, t: Taker, env: Env, actions: seq<Action>)
    requires BookOk(m) && AllShown(items, opp, m, env.now, env.oracle) && ActionsOk(t, items, actions)
    requires t.hasAccount == env.hasAccount && t.owner == env.owner
    ensures forall i :: 0 <= i < |actions| ==> Shown(m, opp, actions[i].item) && Fits(env, actions[i])
  {
    hide BookOk, ShowsOrder, Ranked, Shown;
    forall i | 0 <= i < |actions|
      ensures Shown(m, opp, actions[i].item) && Fits(env, actions[i])
    {
      assert ActionOk(t, items, actions[i]);
      var k :| 0 <= k < |items| && items[k] == actions[i].item;
      ItemIsShown(m, opp, items[k], env.now, env.oracle);
    }
  }

  lemma ActionsDiffer(side: Side, items: seq<Item>, actions: seq<Action>)
    requires InTreeOrder(side, items) && InItemOrder(items, actions)
    ensures forall i, j :: 0 <= i < j < |actions| ==> !SameOrder(actions[i].item, actions[j].item)
  {
    var at :| Indexes(items, actions, at);
    forall i, j | 0 <= i < j < |actions|
      ensures !SameOrder(actions[i].item, actions[j].item)
    {
      assert items[at[i]] == actions[i].item && items[at[j]] == actions[j].item && at[i] < at[j];
    }
  }

  /** Everything that the matching loop does to an order concerns an order that is there, and each order once. */
  lemma WalkIsDoable(m: BookSideModel, opp: Side, t: Taker, env: Env, b: Budget)
    requires BookOk(m) && BudgetOk(b) && t.hasAccount == env.hasAccount && t.owner == env.owner
    ensures var items := Items(opp, Ranked(opp, m.fixed), Ranked(opp, m.pegged), env.now, env.oracle);
            ItemsOk(items) && Doable(m, opp, env, Walk(t, items, b).actions)
  {
    hide Walk, ActionsOk, InItemOrder, InTreeOrder, ShowsOrder, Shown, Fits, SameOrder, Ranked, Items, FixedOk, PeggedOk;
    var fixed, pegged := Ranked(opp, m.fixed), Ranked(opp, m.pegged);
    var items := Items(opp, fixed, pegged, env.now, env.oracle);
    ItemsCanBeMatched(opp, m, env.now, env.oracle);
    RankedIsRanked(opp, m.fixed);
    RankedIsRanked(opp, m.pegged);
    ItemsShowOrders(opp, fixed, pegged, env.now, env.oracle);
    ItemsInTreeOrder(opp, fixed, pegged, env.now, env.oracle);
    WalkTotals(t, items, b);
    ActionsFollowItems(t, items, b);
    ActionsShown(items, m, opp, t, env, Walk(t, items, b).actions);
    ActionsDiffer(opp, items, Walk(t, items, b).actions);
  }

  // ---------- what the actions make due ----------

  predicate NotSelfWithoutAccount(env: Env, actions: seq<Action>) {
    !env.hasAccount ==> forall i :: 0 <= i < |actions| ==> actions[i].item.leaf.owner != env.owner
  }

  /** In quote: the rebates, and what is paid for (or taken out of) the orders matched. In base: the other way around. */
  lemma {:induction false} DuesAddUp(c: Config, t: Taker, env: Env, opp: Side, actions: seq<Action>)
    requires t.owner == env.owner && t.hasAccount == env.hasAccount && NotSelfWithoutAccount(env, actions)
    ensures QuoteDue(c, env, opp, actions)
         == RebatesOf(c, t, actions) + (if opp.Ask? then TakenQuote(actions) else -TakenQuote(actions)) * c.quoteLotSize
    ensures BaseDue(c, opp, actions) == (if opp.Ask? then -TakenBase(actions) else TakenBase(actions)) * c.baseLotSize
  {
    if actions != [] {
      var a, rest := actions[0], actions[1..];
      DuesAddUp(c, t, env, opp, rest);
      OneDue(c, t, env, opp, a);
      var sign := if opp.Ask? then 1 else -1;
      var base, quote := if a.Match? then a.quantity else 0, if a.Match? then a.quantity * a.item.price else 0;
      hide QuoteDueOf, BaseDueOf, RebateOn;
      Distribute(sign * quote, sign * TakenQuote(rest), c.quoteLotSize);
      Distribute(-sign * base, -sign * TakenBase(rest), c.baseLotSize);
    }
  }

  lemma OneDue(c: Config, t: Taker, env: Env, opp: Side, a: Action)
    requires t.owner == env.owner && t.hasAccount == env.hasAccount
    requires !env.hasAccount ==> a.item.leaf.owner != env.owner
    ensures var base, quote := if a.Match? then a.quantity else 0, if a.Match? then a.quantity * a.item.price else 0;
            var sign := if opp.Ask? then 1 else -1;
            && QuoteDueOf(c, env, opp, a) == RebateOn(c, t, a) + sign * quote * c.quoteLotSize
            && BaseDueOf(c, opp, a) == -sign * base * c.baseLotSize
  {
    hide MakerRebateFloor;
  }

  /** Orders on the book belong to accounts. */
  lemma OwnersAreAccounts(ex: Exchange, claims: map<ClaimId, Claim>, opp: Side, env: Env, actions: seq<Action>, dq: int, db: int)
    requires Good(ex, claims, dq, db) && SignerOk(ex, env) && Doable(ex.orders.Book(opp), opp, env, actions)
    ensures NotSelfWithoutAccount(env, actions)
  {
    GoodParts(ex, claims, dq, db);
    InvParts(Ledger(ex.market, ex.accounts, claims), dq, db);
    hide Good, Inv;
    forall i | 0 <= i < |actions|
      ensures actions[i].item.leaf.owner in ex.accounts
    {
      var item := actions[i].item;
      assert Shown(ex.orders.Book(opp), opp, item);
      assert OnBook(opp, item.comp, item.leaf.key) in claims;
      assert Backed(ex.orders, OnBook(opp, item.comp, item.leaf.key), claims[OnBook(opp, item.comp, item.leaf.key)]);
      assert ClaimOk(ex.accounts, claims[OnBook(opp, item.comp, item.leaf.key)]);
    }
  }

  // ---------- settling the taker ----------

  /** What is due from the taker (negative: to the taker) for what it took. */
  function TakerQuote(p: Placed, env: Env, side: Side): int {
    if env.hasAccount then (if side.Bid? then p.takenQuote + p.takerFees else 0)
    else if side.Bid? then p.takenQuote + (p.takerFees - p.referrerAmount)
    else -(p.takenQuote - (p.takerFees - p.referrerAmount))
  }

  function TakerBase(p: Placed, env: Env, side: Side): int {
    if side.Ask? then p.takenBase else if env.hasAccount then 0 else -p.takenBase
  }

  predicate AmountsOk(p: Placed) {
    && p.takenBase >= 0 && p.takenQuote >= 0
    && 0 <= p.referrerAmount <= p.takerFees <= p.takenQuote
  }

  lemma TakerIsSettled(p: Placed, claims: map<ClaimId, Claim>, env: Env, side: Side, dq: int, db: int)
    requires SignerOk(p.ex, env) && AmountsOk(p)
    requires var rebates := p.takerFees - p.referrerAmount;
             Good(p.ex, claims,
                  dq + rebates + (if side.Bid? then p.takenQuote else -p.takenQuote),
                  db + (if side.Bid? then -p.takenBase else p.takenBase))
    ensures var r := SettleTaker(p, env, side);
            && r.Ok? && r.value == p.(ex := r.value.ex) && r.value.ex.orders == p.ex.orders
            && Good(r.value.ex, claims, dq + TakerQuote(p, env, side), db + TakerBase(p, env, side))
            && SameFrame(p.ex, r.value.ex)
  {
    hide *;
    SignerIs(p.ex, env);
    SettledIs(p, env, side);
    SameFrameReflexive(p.ex);
    if env.hasAccount {
      var dq0, db0 := dq + (p.takerFees - p.referrerAmount) + (if side.Bid? then p.takenQuote else -p.takenQuote),
                      db + (if side.Bid? then -p.takenBase else p.takenBase);
      GoodParts(p.ex, claims, dq0, db0);
      var ex' := SettleTaker(p, env, side).value.ex;
      CreditKeeps(p, claims, env, side, dq, db);
      SameSlotsTagged(p.ex.accounts, claims, env.owner, ex'.accounts[env.owner], p.ex.market.seqNum);
      MakeGood(ex', claims, dq + TakerQuote(p, env, side), db + TakerBase(p, env, side));
      OneGrows(p.ex.accounts, env.owner, ex'.accounts[env.owner]);
      MakeFrame(p.ex, ex');
    }
  }

  lemma SignerIs(ex: Exchange, env: Env)
    requires SignerOk(ex, env)
    ensures env.hasAccount <==> env.owner in ex.accounts
  {
  }

  lemma MakeFrame(ex: Exchange, ex': Exchange)
    requires SlotsShrink(ex.accounts, ex'.accounts) && FreeGrows(ex.accounts, ex'.accounts)
    requires ex'.market == ex.market.(referrerRebatesAccrued := ex'.market.referrerRebatesAccrued)
    ensures SameFrame(ex, ex')
  {
  }

  lemma SettledIs(p: Placed, env: Env, side: Side)
    requires SignerOk(p.ex, env)
    ensures !env.hasAccount ==>
              && SettleTaker(p, env, side) == Ok(p)
              && TakerQuote(p, env, side)
                 == p.takerFees - p.referrerAmount + (if side.Bid? then p.takenQuote else -p.takenQuote)
              && TakerBase(p, env, side) == if side.Bid? then -p.takenBase else p.takenBase
    ensures env.hasAccount ==>
              var a := ExecuteTaker(p.ex.accounts[env.owner], side, p.takenBase, p.takenQuote, p.takerFees, p.referrerAmount);
              && a.slots == p.ex.accounts[env.owner].slots
              && (AmountsOk(p) ==> AccountGrows(p.ex.accounts[env.owner], a))
              && SettleTaker(p, env, side) == Ok(p.(ex := Exchange(
                   p.ex.market.(referrerRebatesAccrued := p.ex.market.referrerRebatesAccrued + p.referrerAmount),
                   p.ex.accounts[env.owner := a], p.ex.orders)))
  {
  }

  lemma CreditKeeps(p: Placed, claims: map<ClaimId, Claim>, env: Env, side: Side, dq: int, db: int)
    requires SignerOk(p.ex, env) && AmountsOk(p) && env.hasAccount
    requires var rebates := p.takerFees - p.referrerAmount;
             Inv(Ledger(p.ex.market, p.ex.accounts, claims),
                 dq + rebates + (if side.Bid? then p.takenQuote else -p.takenQuote),
                 db + (if side.Bid? then -p.takenBase else p.takenBase))
    ensures SettleTaker(p, env, side).Ok?
    ensures var ex' := SettleTaker(p, env, side).value.ex;
            Inv(Ledger(ex'.market, ex'.accounts, claims), dq + TakerQuote(p, env, side), db + TakerBase(p, env, side))
  {
    hide Inv, S;
    var l := Ledger(p.ex.market, p.ex.accounts, claims);
    var rebates := p.takerFees - p.referrerAmount;
    var dq0, db0 := dq + rebates + (if side.Bid? then p.takenQuote else -p.takenQuote),
                    db + (if side.Bid? then -p.takenBase else p.takenBase);
    OwnerOk(l, env.owner, dq0, db0);
    InvParts(l, dq0, db0);
    BalancedFees(l, dq0, db0);
    var ex' := SettleTaker(p, env, side).value.ex;
    hide Balanced, ClaimsOk, Exclusive, NoLeak, AccountsOk;
    MoneyKeeps(l, env.owner, ex'.accounts[env.owner], ex'.market, dq0, db0,
               dq + TakerQuote(p, env, side), db + TakerBase(p, env, side));
  }

  lemma BalancedFees(l: Ledger, dq: int, db: int)
    requires Balanced(l, dq, db)
    ensures l.market.feesAvailable >= 0
  {
  }

  lemma SameSlotsTagged(accounts: map<Pubkey, Account>, claims: map<ClaimId, Claim>, p: Pubkey, a: Account, seqNum: int)
    requires Tagged(accounts, claims) && SeqsOk(accounts, seqNum) && p in accounts && a.slots == accounts[p].slots
    ensures Tagged(accounts[p := a], claims) && SeqsOk(accounts[p := a], seqNum) && SlotsShrink(accounts, accounts[p := a])
  {
    if |a.slots| > 0 {
      OneSlotFreed(accounts, p, 0, a);
    }
    SeqsShrink(accounts, accounts[p := a], seqNum);
    forall k | k in claims && k.OnBook?
      ensures TagOk(accounts[p := a], k, claims[k])
    {
      assert TagOk(accounts, k, claims[k]);
    }
  }

  // ---------- matching and settling ----------

  /** The taker's fee pays its makers' rebates; the rest goes to the referrer, and all of it comes out of the quote taken. */
  lemma TakenAmounts(ex: Exchange, env: Env, o: Order, priceLots: int, items: seq<Item>, actions: seq<Action>)
    requires ex.market.config.Ok() && ItemsOk(items)
    requires ActionsOk(TakerOf(o, env.owner, env.hasAccount, priceLots), items, actions)
    requires TakenBase(actions) >= 0
    ensures var p := TakenBy(ex, env, o, priceLots, actions);
            && AmountsOk(p)
            && p.takerFees - p.referrerAmount == RebatesOf(ex.market.config, TakerOf(o, env.owner, env.hasAccount, priceLots), actions)
  {
    var c, t := ex.market.config, TakerOf(o, env.owner, env.hasAccount, priceLots);
    TakerFeeCoversRebates(c, t, items, actions);
    var n := TakenQuote(actions) - SelfQuote(t, actions);
    MulOrder(0, n, c.quoteLotSize);
    MulOrder(n, TakenQuote(actions), c.quoteLotSize);
    MulOrder(0, TakenBase(actions), c.baseLotSize);
    FeeBounds(c, n * c.quoteLotSize);
  }

  lemma NextSeqNumKeeps(ex: Exchange, claims: map<ClaimId, Claim>, dq: int, db: int)
    requires Good(ex, claims, dq, db)
    ensures Good(NextSeqNum(ex), claims, dq, db) && SeqsOk(ex.accounts, ex.market.seqNum)
    ensures NextSeqNum(ex) == ex.(market := NextSeqNum(ex).market) && NextSeqNum(ex).market.seqNum == ex.market.seqNum + 1
    ensures NextSeqNum(ex).market.config == ex.market.config
    ensures NextSeqNum(ex).market.quoteDepositTotal == ex.market.quoteDepositTotal
    ensures NextSeqNum(ex).market.baseDepositTotal == ex.market.baseDepositTotal
    ensures NextSeqNum(ex).market.feesAvailable == ex.market.feesAvailable
  {
    hide BooksOk, Tally, Tagged, ClaimsOk, Exclusive, NoLeak, AccountsOk;
    assert SeqsOk(ex.accounts, ex.market.seqNum + 1);
  }

  lemma TakeStep(ex: Exchange, claims: map<ClaimId, Claim>, env: Env, o: Order, limit: nat, priceLots: int, dq: int, db: int)
      returns (claims': map<ClaimId, Claim>)
    requires Good(ex, claims, dq, db) && SignerOk(ex, env) && o.maxBaseLots >= 0 && o.maxQuoteLotsIncludingFees >= 0
    requires ex.market.config.Ok() && BookOk(ex.orders.Book(o.side.Invert()))
    ensures var r := TakeOrder(ex, env, o, priceLots, WalkOf(ex, env, o, limit, priceLots));
            && (r.Err? ==> KnownError(env, r.error) || r.error == WouldSelfTrade)
            && (r.Ok? ==>
                  && r.value == TakenBy(r.value.ex, env, o, priceLots, WalkOf(ex, env, o, limit, priceLots).actions)
                  && AmountsOk(r.value) && SameFrame(NextSeqNum(ex), r.value.ex)
                  && Good(r.value.ex, claims', dq + TakerQuote(r.value, env, o.side), db + TakerBase(r.value, env, o.side)))
  {
    hide *;
    var opp, t, b := o.side.Invert(), TakerOf(o, env.owner, env.hasAccount, priceLots), StartBudget(ex.market.config, o, limit);
    var items := ItemsOf(ex, opp, env.now, env.oracle);
    var w := WalkOf(ex, env, o, limit, priceLots);
    var actions := w.actions;
    TakerFields(o, env, priceLots);
    StartIsOk(ex.market.config, o, limit);
    WalkOfIs(ex, env, o, limit, priceLots);
    WalkIsDoable(ex.orders.Book(opp), opp, t, env, b);
    WalkTotals(t, items, b);
    TakenNotNegative(t, items, b);
    NextSeqNumKeeps(ex, claims, dq, db);
    SignerStays(ex, NextSeqNum(ex), env);
    OwnersAreAccounts(NextSeqNum(ex), claims, opp, env, actions, dq, db);
    claims' := ActionsKeep(NextSeqNum(ex), claims, env, o.side, actions, 0, dq, db);
    TakeOrderIs(ex, env, o, priceLots, w);
    var r := ApplyActions(NextSeqNum(ex), env, o.side, actions, 0);
    if r.Ok? {
      var ex1 := r.value.0;
      var p := TakenBy(ex1, env, o, priceLots, actions);
      SameFrameIs(NextSeqNum(ex), ex1);
      TakenAmounts(ex1, env, o, priceLots, items, actions);
      TakenByFields(ex1, env, o, priceLots, actions);
      DuesAddUp(ex.market.config, t, env, opp, actions);
      SignerStays(ex, ex1, env);
      SideIs(o.side);
      NegatedProduct(TakenQuote(actions), ex.market.config.quoteLotSize);
      NegatedProduct(TakenBase(actions), ex.market.config.baseLotSize);
      TakerIsSettled(p, claims', env, o.side, dq, db);
      var q := SettleTaker(p, env, o.side).value;
      SameFrameTransitive(NextSeqNum(ex), ex1, q.ex);
      SameFrameIs(ex1, q.ex);
      TakenByFields(q.ex, env, o, priceLots, actions);
      SameAmounts(p, q, env, o.side);
    }
  }

  lemma NegatedProduct(a: int, m: int)
    ensures -a * m == -(a * m)
  {
  }

  lemma SideIs(side: Side)
    ensures side.Invert().Ask? <==> side.Bid?
  {
  }

  lemma SameAmounts(p: Placed, q: Placed, env: Env, side: Side)
    requires q == p.(ex := q.ex) && AmountsOk(p)
    ensures AmountsOk(q) && TakerQuote(q, env, side) == TakerQuote(p, env, side) && TakerBase(q, env, side) == TakerBase(p, env, side)
  {
  }

  lemma TakerFields(o: Order, env: Env, priceLots: int)
    ensures var t := TakerOf(o, env.owner, env.hasAccount, priceLots); t.owner == env.owner && t.hasAccount == env.hasAccount
  {
  }

  lemma StartIsOk(c: Config, o: Order, limit: nat)
    requires c.Ok() && o.maxBaseLots >= 0 && o.maxQuoteLotsIncludingFees >= 0
    ensures var b := StartBudget(c, o, limit);
            BudgetOk(b) && b.base == o.maxBaseLots && b.quote == OrderMaxQuote(c, o) >= 0
  {
    MulOrder(0, o.maxQuoteLotsIncludingFees, FEES_SCALE_FACTOR);
  }

  lemma WalkOfIs(ex: Exchange, env: Env, o: Order, limit: nat, priceLots: int)
    requires ex.market.config.Ok() && BookOk(ex.orders.Book(o.side.Invert()))
    ensures var opp, items := o.side.Invert(), ItemsOf(ex, o.side.Invert(), env.now, env.oracle);
            var m := ex.orders.Book(opp);
            && ItemsOk(items)
            && (forall i :: 0 <= i < |items| ==> items[i].price >= 1)
            && items == Items(opp, Ranked(opp, m.fixed), Ranked(opp, m.pegged), env.now, env.oracle)
            && WalkOf(ex, env, o, limit, priceLots)
               == Walk(TakerOf(o, env.owner, env.hasAccount, priceLots), items, StartBudget(ex.market.config, o, limit))
  {
    hide Walk, Items, Ranked, BookOk;
    ItemsCanBeMatched(o.side.Invert(), ex.orders.Book(o.side.Invert()), env.now, env.oracle);
  }

  /** What is taken is never negative, as matched quantities are positive. */
  lemma {:induction false} TakenNotNegative(t: Taker, items: seq<Item>, b: Budget)
    requires ItemsOk(items) && BudgetOk(b)
    ensures ActionsOk(t, items, Walk(t, items, b).actions)
    ensures TakenBase(Walk(t, items, b).actions) >= 0
  {
    WalkTotals(t, items, b);
    hide Walk;
    MatchedNotNegative(t, items, Walk(t, items, b).actions);
  }

  lemma {:induction false} MatchedNotNegative(t: Taker, items: seq<Item>, actions: seq<Action>)
    requires ActionsOk(t, items, actions)
    ensures TakenBase(actions) >= 0
  {
    if actions != [] {
      assert ActionOk(t, items, actions[0]);
      forall i | 0 <= i < |actions[1..]| ensures ActionOk(t, items, actions[1..][i]) { assert actions[1..][i] == actions[i + 1]; }
      MatchedNotNegative(t, items, actions[1..]);
    }
  }

  lemma SignerStays(ex: Exchange, ex': Exchange, env: Env)
    requires SignerOk(ex, env) && ex'.accounts.Keys == ex.accounts.Keys
    ensures SignerOk(ex', env)
  {
    assert env.owner in ex'.accounts.Keys <==> env.owner in ex.accounts.Keys;
  }

  lemma TakeOrderIs(ex: Exchange, env: Env, o: Order, priceLots: int, w: Walked)
    ensures var r := ApplyActions(NextSeqNum(ex), env, o.side, w.actions, 0);
            TakeOrder(ex, env, o, priceLots, w) ==
            if r.Err? then Err(r.error)
            else if w.stop.SelfTrade? then Err(WouldSelfTrade)
            else SettleTaker(TakenBy(r.value.0, env, o, priceLots, w.actions), env, o.side)
  {
  }

  lemma TakenByFields(ex: Exchange, env: Env, o: Order, priceLots: int, actions: seq<Action>)
    ensures var p, c := TakenBy(ex, env, o, priceLots, actions), ex.market.config;
            && p.ex == ex && p.takenBase == TakenBase(actions) * c.baseLotSize && p.takenQuote == TakenQuote(actions) * c.quoteLotSize
            && forall ex': Exchange :: ex'.market.config == c ==> TakenBy(ex', env, o, priceLots, actions) == p.(ex := ex')
  {
  }
}
