/** The accounting protocol: what the vaults hold, against what accounts, resting orders and pending events may claim. */
module Ledgers {
  import opened Types
  import opened Markets
  import opened Accounts
  import opened Sums

  /** A claim comes from an order on the book, an event on the heap, or an event that is handled at once. */
  datatype ClaimId = OnBook(side: Side, comp: Component, key: nat) | InHeap(slot: nat) | AtOnce

  /** What became of the order: it rests, it was taken off the book, or (part of) it was matched at a price. */
  datatype ClaimKind = Resting | TakenOff | Matched(price: int, self: bool, last: bool)

  /** `lock` is the price at which a bid's funds were locked; asks lock base only and have 0 here. */
  datatype Claim = Claim(owner: Pubkey, slot: nat, side: Side, quantity: int, lock: int, kind: ClaimKind) {
    /** Handling the claim to its end frees the slot. */
    predicate HoldsSlot() { kind.Matched? ==> kind.last }
  }

  datatype Ledger = Ledger(market: Market, accounts: map<Pubkey, Account>, claims: map<ClaimId, Claim>)

  // ---------- totals ----------

  datatype Weight =
    | BidBase(owner: Pubkey)
    | BidQuote(owner: Pubkey)
    | BidFee(owner: Pubkey)
    | AskBase(owner: Pubkey)
    | QuoteOwed
    | BaseOwed

  /** Quote native that a quantity comes to at a price. */
  function Quote(c: Config, quantity: int, price: int): int { quantity * price * c.quoteLotSize }

  function Rebate(c: Config, x: Claim): int
    requires x.kind.Matched?
  {
    if x.kind.self then 0 else MakerRebateFloor(c, Quote(c, x.quantity, x.kind.price))
  }

  /** The vault's quote that stands behind a claim. */
  function QuoteOwedBy(c: Config, x: Claim): int {
    var locked := if x.side.Bid? then Quote(c, x.quantity, x.lock) else 0;
    match x.kind
    case Resting => locked
    case TakenOff => locked
    case Matched(price, _, _) =>
      if x.side.Bid? then locked - Quote(c, x.quantity, price) + Rebate(c, x)
      else Quote(c, x.quantity, price) + Rebate(c, x)
  }

  /** The vault's base that stands behind a claim. */
  function BaseOwedBy(c: Config, x: Claim): int {
    if x.side.Ask? == x.kind.Matched? then 0 else x.quantity * c.baseLotSize
  }

  function W(c: Config, w: Weight, x: Claim): int {
    match w
    case BidBase(p) => if x.owner == p && x.side.Bid? then x.quantity else 0
    case BidQuote(p) => if x.owner == p && x.side.Bid? then x.quantity * x.lock else 0
    case BidFee(p) =>
      if x.owner == p && x.side.Bid? then
        if x.kind.Matched? then MakerFeesFloor(c, Quote(c, x.quantity, x.lock))
        else MakerFeesCeil(c, Quote(c, x.quantity, x.lock))
      else 0
    case AskBase(p) => if x.owner == p && x.side.Ask? then x.quantity else 0
    case QuoteOwed => QuoteOwedBy(c, x)
    case BaseOwed => BaseOwedBy(c, x)
  }

  function WeightOf(c: Config, w: Weight): Claim -> int { x => W(c, w, x) }

  /** The total of a weight over all claims. */
  ghost function S(c: Config, w: Weight, claims: map<ClaimId, Claim>): int { Sum(claims, WeightOf(c, w)) }

  datatype Holding = HeldQuote | HeldBase | Rebates

  function H(h: Holding, a: Account): int {
    match h
    case HeldQuote => a.position.quoteFree + a.position.lockedMakerFees + a.position.referrerRebates
    case HeldBase => a.position.baseFree
    case Rebates => a.position.referrerRebates
  }

  function HoldingOf(h: Holding): Account -> int { a => H(h, a) }

  ghost function T(h: Holding, accounts: map<Pubkey, Account>): int { Sum(accounts, HoldingOf(h)) }

  // ---------- the invariant ----------

  /** The position tells exactly what the claims on the account come to, and enough maker fees are locked. */
  ghost predicate AccountOk(c: Config, p: Pubkey, a: Account, claims: map<ClaimId, Claim>) {
    && |a.slots| == MAX_OPEN_ORDERS
    && a.position.bidsBaseLots == S(c, BidBase(p), claims)
    && a.position.bidsQuoteLots == S(c, BidQuote(p), claims)
    && a.position.asksBaseLots == S(c, AskBase(p), claims)
    && a.position.lockedMakerFees >= S(c, BidFee(p), claims)
    && (c.makerFee <= 0 ==> a.position.lockedMakerFees == 0)
    && a.position.baseFree >= 0 && a.position.quoteFree >= 0 && a.position.referrerRebates >= 0
  }

  /** The claim points at a slot of its owner; a slot that it holds is in use, on its side, locked at its price. */
  predicate ClaimOk(accounts: map<Pubkey, Account>, x: Claim) {
    && x.owner in accounts
    && x.quantity >= 1
    && (x.side.Bid? ==> x.lock >= 1)
    && (x.side.Ask? ==> x.lock == 0)
    && (x.kind.Matched? ==> x.kind.price >= 1 && (x.side.Bid? ==> x.kind.price <= x.lock))
    && x.slot < |accounts[x.owner].slots|
    && (x.HoldsSlot() ==>
          var oo := accounts[x.owner].slots[x.slot];
          !oo.isFree && oo.side == x.side && (x.side.Bid? ==> oo.lockedPrice == x.lock))
  }

  ghost predicate ClaimsOk(accounts: map<Pubkey, Account>, claims: map<ClaimId, Claim>) {
    forall i :: i in claims ==> ClaimOk(accounts, claims[i])
  }

  /** No two claims hold the same slot. */
  ghost predicate Exclusive(claims: map<ClaimId, Claim>) {
    forall i, j :: i in claims && j in claims && i != j && claims[i].HoldsSlot() && claims[j].HoldsSlot() ==>
      claims[i].owner != claims[j].owner || claims[i].slot != claims[j].slot
  }

  /** A slot in use is held by some claim. */
  ghost predicate NoLeak(accounts: map<Pubkey, Account>, claims: map<ClaimId, Claim>) {
    forall p, s :: p in accounts && 0 <= s < |accounts[p].slots| && !accounts[p].slots[s].isFree ==>
      Held(claims, p, s)
  }

  ghost predicate Held(claims: map<ClaimId, Claim>, p: Pubkey, s: nat) {
    exists i :: i in claims && claims[i].owner == p && claims[i].slot == s && claims[i].HoldsSlot()
  }

  ghost predicate AccountsOk(c: Config, accounts: map<Pubkey, Account>, claims: map<ClaimId, Claim>) {
    forall p :: p in accounts ==> AccountOk(c, p, accounts[p], claims)
  }

  /** The vault totals, plus what the current instruction still has to bring in, are what is owed. */
  ghost predicate Balanced(l: Ledger, dueQuote: int, dueBase: int) {
    var c := l.market.config;
    && l.market.quoteDepositTotal + dueQuote
       == T(HeldQuote, l.accounts) + l.market.feesAvailable + S(c, QuoteOwed, l.claims)
    && l.market.baseDepositTotal + dueBase == T(HeldBase, l.accounts) + S(c, BaseOwed, l.claims)
    && l.market.referrerRebatesAccrued == T(Rebates, l.accounts)
    && l.market.feesAvailable >= 0
  }

  /** Holds between instructions with nothing due, and at every step inside them. */
  ghost predicate Inv(l: Ledger, dueQuote: int, dueBase: int) {
    && l.market.config.Ok()
    && ClaimsOk(l.accounts, l.claims)
    && Exclusive(l.claims)
    && NoLeak(l.accounts, l.claims)
    && AccountsOk(l.market.config, l.accounts, l.claims)
    && Balanced(l, dueQuote, dueBase)
  }

  // ---------- totals under change ----------

  lemma PutClaim(c: Config, claims: map<ClaimId, Claim>, i: ClaimId, x: Claim)
    ensures forall w :: S(c, w, claims[i := x]) == S(c, w, claims) + W(c, w, x) - (if i in claims then W(c, w, claims[i]) else 0)
  {
    forall w
      ensures S(c, w, claims[i := x]) == S(c, w, claims) + W(c, w, x) - (if i in claims then W(c, w, claims[i]) else 0)
    {
      if i in claims { SumUpdate(claims, i, x, WeightOf(c, w)); } else { SumInsert(claims, i, x, WeightOf(c, w)); }
    }
  }

  lemma DropClaim(c: Config, claims: map<ClaimId, Claim>, i: ClaimId)
    requires i in claims
    ensures forall w :: S(c, w, claims - {i}) == S(c, w, claims) - W(c, w, claims[i])
  {
    forall w
      ensures S(c, w, claims - {i}) == S(c, w, claims) - W(c, w, claims[i])
    {
      SumRemove(claims, i, WeightOf(c, w));
    }
  }

  lemma PutAccount(accounts: map<Pubkey, Account>, p: Pubkey, a: Account)
    requires p in accounts
    ensures forall h :: T(h, accounts[p := a]) == T(h, accounts) + H(h, a) - H(h, accounts[p])
  {
    forall h
      ensures T(h, accounts[p := a]) == T(h, accounts) + H(h, a) - H(h, accounts[p])
    {
      SumUpdate(accounts, p, a, HoldingOf(h));
    }
  }

  // ---------- matching part of an order ----------

  /** The rest of an order after `q` of it is matched, and the fill. */
  function FillOf(x: Claim, q: int, price: int, self: bool): Claim {
    x.(quantity := q, kind := Matched(price, self, q == x.quantity))
  }

  function AfterMatch(claims: map<ClaimId, Claim>, i: ClaimId, j: ClaimId, q: int, price: int, self: bool): map<ClaimId, Claim>
    requires i in claims
  {
    var x := claims[i];
    var rest := if q == x.quantity then claims - {i} else claims[i := x.(quantity := x.quantity - q)];
    rest[j := FillOf(x, q, price, self)]
  }

  /** What a match makes due from the taker, in quote and in base (negative: due to the taker). */
  function DueQuote(c: Config, makerSide: Side, q: int, price: int, self: bool): int {
    var quote := Quote(c, q, price);
    var rebate := if self then 0 else MakerRebateFloor(c, quote);
    if makerSide.Bid? then rebate - quote else rebate + quote
  }

  function DueBase(c: Config, makerSide: Side, q: int): int {
    if makerSide.Bid? then q * c.baseLotSize else -(q * c.baseLotSize)
  }

  lemma QuoteSplits(c: Config, a: int, b: int, price: int)
    ensures Quote(c, a + b, price) == Quote(c, a, price) + Quote(c, b, price)
    ensures Quote(c, 0, price) == 0
  {
    assert (a + b) * price == a * price + b * price;
    assert (a + b) * price * c.quoteLotSize == a * price * c.quoteLotSize + b * price * c.quoteLotSize;
  }

  lemma QuoteMonotone(c: Config, q: int, price: int, price': int)
    requires c.Ok() && q >= 0 && 0 <= price <= price'
    ensures 0 <= Quote(c, q, price) <= Quote(c, q, price')
  {
    assert q * price <= q * price';
    assert 0 <= q * price;
    MulMonotone(q * price, q * price', c.quoteLotSize);
  }

  lemma MulMonotone(a: int, b: int, m: int)
    requires 0 <= a <= b && m >= 0
    ensures 0 <= a * m <= b * m
  {
  }

  lemma WeightOfNothing(c: Config, w: Weight, x: Claim)
    requires x.quantity == 0 && x.kind.Resting?
    ensures W(c, w, x) == 0
  {
    QuoteSplits(c, 0, 0, x.lock);
  }

  /** Splitting a resting order into a rest and a fill. */
  lemma SplitWeights(c: Config, x: Claim, q: int, price: int, self: bool)
    requires c.Ok() && x.kind.Resting? && 1 <= q <= x.quantity && price >= 1 && (x.side.Bid? ==> x.lock >= price)
    ensures var rest, fill := x.(quantity := x.quantity - q), FillOf(x, q, price, self);
            && (forall p :: W(c, BidBase(p), rest) + W(c, BidBase(p), fill) == W(c, BidBase(p), x))
            && (forall p :: W(c, BidQuote(p), rest) + W(c, BidQuote(p), fill) == W(c, BidQuote(p), x))
            && (forall p :: W(c, BidFee(p), rest) + W(c, BidFee(p), fill) <= W(c, BidFee(p), x))
            && (forall p :: W(c, AskBase(p), rest) + W(c, AskBase(p), fill) == W(c, AskBase(p), x))
            && W(c, QuoteOwed, rest) + W(c, QuoteOwed, fill) == W(c, QuoteOwed, x) + DueQuote(c, x.side, q, price, self)
            && W(c, BaseOwed, rest) + W(c, BaseOwed, fill) == W(c, BaseOwed, x) + DueBase(c, x.side, q)
  {
    var r := x.quantity - q;
    QuoteSplits(c, r, q, x.lock);
    assert (r + q) * x.lock == r * x.lock + q * x.lock;
    assert (r + q) * c.baseLotSize == r * c.baseLotSize + q * c.baseLotSize;
    if x.side.Bid? {
      QuoteMonotone(c, r, 0, x.lock);
      QuoteMonotone(c, q, 0, x.lock);
      SplitFee(c, Quote(c, q, x.lock), Quote(c, r, x.lock));
    }
  }

  /** The totals after a match. */
  lemma MatchTotals(c: Config, claims: map<ClaimId, Claim>, i: ClaimId, j: ClaimId, q: int, price: int, self: bool)
    requires c.Ok() && i in claims && j !in claims
    requires var x := claims[i]; x.kind.Resting? && 1 <= q <= x.quantity && price >= 1 && (x.side.Bid? ==> x.lock >= price)
    ensures var claims' := AfterMatch(claims, i, j, q, price, self);
            && (forall p :: S(c, BidBase(p), claims') == S(c, BidBase(p), claims))
            && (forall p :: S(c, BidQuote(p), claims') == S(c, BidQuote(p), claims))
            && (forall p :: S(c, BidFee(p), claims') <= S(c, BidFee(p), claims))
            && (forall p :: S(c, AskBase(p), claims') == S(c, AskBase(p), claims))
            && S(c, QuoteOwed, claims') == S(c, QuoteOwed, claims) + DueQuote(c, claims[i].side, q, price, self)
            && S(c, BaseOwed, claims') == S(c, BaseOwed, claims) + DueBase(c, claims[i].side, q)
  {
    hide W, S, DueQuote, DueBase;
    var x := claims[i];
    var rest := x.(quantity := x.quantity - q);
    SplitWeights(c, x, q, price, self);
    if q == x.quantity {
      DropClaim(c, claims, i);
      forall w ensures W(c, w, rest) == 0 { WeightOfNothing(c, w, rest); }
      PutClaim(c, claims - {i}, j, FillOf(x, q, price, self));
    } else {
      PutClaim(c, claims, i, rest);
      PutClaim(c, claims[i := rest], j, FillOf(x, q, price, self));
    }
  }

  lemma MatchedClaimsOk(accounts: map<Pubkey, Account>, claims: map<ClaimId, Claim>, i: ClaimId, j: ClaimId, q: int, price: int, self: bool)
    requires ClaimsOk(accounts, claims) && i in claims && j !in claims
    requires var x := claims[i]; x.kind.Resting? && 1 <= q <= x.quantity && price >= 1 && (x.side.Bid? ==> x.lock >= price)
    ensures ClaimsOk(accounts, AfterMatch(claims, i, j, q, price, self))
  {
    assert ClaimOk(accounts, claims[i]);
    forall k | k in AfterMatch(claims, i, j, q, price, self)
      ensures ClaimOk(accounts, AfterMatch(claims, i, j, q, price, self)[k])
    {
      assert k in claims ==> ClaimOk(accounts, claims[k]);
    }
  }

  lemma MatchedExclusive(claims: map<ClaimId, Claim>, i: ClaimId, j: ClaimId, q: int, price: int, self: bool)
    requires Exclusive(claims) && i in claims && j !in claims && claims[i].kind.Resting?
    ensures Exclusive(AfterMatch(claims, i, j, q, price, self))
  {
  }

  lemma MatchedNoLeak(accounts: map<Pubkey, Account>, claims: map<ClaimId, Claim>, i: ClaimId, j: ClaimId, q: int, price: int, self: bool)
    requires NoLeak(accounts, claims) && i in claims && j !in claims && claims[i].kind.Resting?
    ensures NoLeak(accounts, AfterMatch(claims, i, j, q, price, self))
  {
    var claims' := AfterMatch(claims, i, j, q, price, self);
    forall p, s | p in accounts && 0 <= s < |accounts[p].slots| && !accounts[p].slots[s].isFree
      ensures Held(claims', p, s)
    {
      assert Held(claims, p, s);
      var k :| k in claims && claims[k].owner == p && claims[k].slot == s && claims[k].HoldsSlot();
      var k' := if k == i && q == claims[i].quantity then j else k;
      assert k' in claims' && claims'[k'].owner == p && claims'[k'].slot == s && claims'[k'].HoldsSlot();
    }
  }

  /** A match keeps the invariant; what it moves becomes due from or to the taker. */
  lemma MatchKeeps(l: Ledger, i: ClaimId, j: ClaimId, q: int, price: int, self: bool, dq: int, db: int)
    requires Inv(l, dq, db) && i in l.claims && j !in l.claims
    requires var x := l.claims[i]; x.kind.Resting? && 1 <= q <= x.quantity && price >= 1 && (x.side.Bid? ==> x.lock >= price)
    ensures var c, x := l.market.config, l.claims[i];
            Inv(l.(claims := AfterMatch(l.claims, i, j, q, price, self)),
                dq + DueQuote(c, x.side, q, price, self), db + DueBase(c, x.side, q))
  {
    hide S, T, ClaimsOk, Exclusive, NoLeak, AfterMatch, DueQuote, DueBase;
    MatchTotals(l.market.config, l.claims, i, j, q, price, self);
    MatchedClaimsOk(l.accounts, l.claims, i, j, q, price, self);
    MatchedExclusive(l.claims, i, j, q, price, self);
    MatchedNoLeak(l.accounts, l.claims, i, j, q, price, self);
  }

  // ---------- taking an order off the book ----------

  function AfterTakeOff(claims: map<ClaimId, Claim>, i: ClaimId, j: ClaimId): map<ClaimId, Claim>
    requires i in claims
  {
    (claims - {i})[j := claims[i].(kind := TakenOff)]
  }

  lemma TakeOffTotals(c: Config, claims: map<ClaimId, Claim>, i: ClaimId, j: ClaimId)
    requires i in claims && j !in claims && claims[i].kind.Resting?
    ensures forall w :: S(c, w, AfterTakeOff(claims, i, j)) == S(c, w, claims)
  {
    var x := claims[i];
    assert forall w :: W(c, w, x.(kind := TakenOff)) == W(c, w, x);
    hide S, W;
    DropClaim(c, claims, i);
    PutClaim(c, claims - {i}, j, x.(kind := TakenOff));
  }

  /** Taking an order off the book moves nothing. */
  lemma TakeOffKeeps(l: Ledger, i: ClaimId, j: ClaimId, dq: int, db: int)
    requires Inv(l, dq, db) && i in l.claims && j !in l.claims && l.claims[i].kind.Resting?
    ensures Inv(l.(claims := AfterTakeOff(l.claims, i, j)), dq, db)
  {
    hide S, T, ClaimsOk, Exclusive, NoLeak, AfterTakeOff;
    TakeOffTotals(l.market.config, l.claims, i, j);
    TakeOffLinks(l.accounts, l.claims, i, j);
  }

  lemma TakeOffLinks(accounts: map<Pubkey, Account>, claims: map<ClaimId, Claim>, i: ClaimId, j: ClaimId)
    requires ClaimsOk(accounts, claims) && Exclusive(claims) && NoLeak(accounts, claims)
    requires i in claims && j !in claims && claims[i].kind.Resting?
    ensures var claims' := AfterTakeOff(claims, i, j);
            ClaimsOk(accounts, claims') && Exclusive(claims') && NoLeak(accounts, claims')
  {
    var claims' := AfterTakeOff(claims, i, j);
    assert ClaimOk(accounts, claims[i]);
    forall p, s | p in accounts && 0 <= s < |accounts[p].slots| && !accounts[p].slots[s].isFree
      ensures Held(claims', p, s)
    {
      assert Held(claims, p, s);
      var k :| k in claims && claims[k].owner == p && claims[k].slot == s && claims[k].HoldsSlot();
      var k' := if k == i then j else k;
      assert k' in claims' && claims'[k'].owner == p && claims'[k'].slot == s && claims'[k'].HoldsSlot();
    }
  }

  // ---------- handling an event ----------

  /** Once a claim is handled its slot is free, if the claim held it. */
  lemma HandledLinks(accounts: map<Pubkey, Account>, claims: map<ClaimId, Claim>, i: ClaimId, a: Account)
    requires ClaimsOk(accounts, claims) && Exclusive(claims) && NoLeak(accounts, claims)
    requires i in claims && claims[i].owner in accounts
    requires var x := claims[i];
             var was := accounts[x.owner];
             && x.slot < |was.slots|
             && a.slots == if x.HoldsSlot() then was.slots[x.slot := FreeOrder] else was.slots
    ensures var accounts' := accounts[claims[i].owner := a];
            ClaimsOk(accounts', claims - {i}) && Exclusive(claims - {i}) && NoLeak(accounts', claims - {i})
  {
    var accounts', claims' := accounts[claims[i].owner := a], claims - {i};
    forall k | k in claims'
      ensures ClaimOk(accounts', claims'[k])
    {
      assert ClaimOk(accounts, claims[k]);
    }
    forall p, s | p in accounts' && 0 <= s < |accounts'[p].slots| && !accounts'[p].slots[s].isFree
      ensures Held(claims', p, s)
    {
      assert !accounts[p].slots[s].isFree;
      assert Held(claims, p, s);
      var k :| k in claims && claims[k].owner == p && claims[k].slot == s && claims[k].HoldsSlot();
      assert k in claims';
    }
  }

  /** Handling a claim pays its owner what is owed and takes it out of the position. */
  ghost predicate PaysClaim(c: Config, x: Claim, a: Account, b: Account) {
    var p, q := a.position, b.position;
    && |b.slots| == |a.slots|
    && q.bidsBaseLots == p.bidsBaseLots - W(c, BidBase(x.owner), x)
    && q.bidsQuoteLots == p.bidsQuoteLots - W(c, BidQuote(x.owner), x)
    && q.asksBaseLots == p.asksBaseLots - W(c, AskBase(x.owner), x)
    && q.lockedMakerFees >= p.lockedMakerFees - W(c, BidFee(x.owner), x)
    && (c.makerFee <= 0 ==> q.lockedMakerFees == p.lockedMakerFees)
    && q.baseFree >= p.baseFree && q.quoteFree >= p.quoteFree && q.referrerRebates >= p.referrerRebates
    && H(HeldQuote, b) == H(HeldQuote, a) + W(c, QuoteOwed, x)
    && H(HeldBase, b) == H(HeldBase, a) + W(c, BaseOwed, x)
  }

  /** An account is judged by what the claims on it come to. */
  lemma SameClaimsOn(c: Config, p: Pubkey, a: Account, claims: map<ClaimId, Claim>, claims': map<ClaimId, Claim>)
    requires AccountOk(c, p, a, claims)
    requires forall w :: w in [BidBase(p), BidQuote(p), BidFee(p), AskBase(p)] ==> S(c, w, claims') == S(c, w, claims)
    ensures AccountOk(c, p, a, claims')
  {
    hide S;
    assert BidBase(p) in [BidBase(p), BidQuote(p), BidFee(p), AskBase(p)];
  }

  lemma OtherOwner(c: Config, p: Pubkey, x: Claim)
    requires x.owner != p
    ensures forall w :: w in [BidBase(p), BidQuote(p), BidFee(p), AskBase(p)] ==> W(c, w, x) == 0
  {
  }

  lemma HandledOwner(c: Config, x: Claim, a: Account, b: Account, claims: map<ClaimId, Claim>, claims': map<ClaimId, Claim>)
    requires AccountOk(c, x.owner, a, claims) && PaysClaim(c, x, a, b)
    requires forall w :: S(c, w, claims') == S(c, w, claims) - W(c, w, x)
    ensures AccountOk(c, x.owner, b, claims')
  {
    hide S, W, H;
  }

  lemma HandledAccounts(c: Config, accounts: map<Pubkey, Account>, claims: map<ClaimId, Claim>, i: ClaimId, a: Account)
    requires AccountsOk(c, accounts, claims) && i in claims && claims[i].owner in accounts
    requires PaysClaim(c, claims[i], accounts[claims[i].owner], a)
    ensures AccountsOk(c, accounts[claims[i].owner := a], claims - {i})
  {
    var accounts', x := accounts[claims[i].owner := a], claims[i];
    DropClaim(c, claims, i);
    hide AccountOk, PaysClaim, S, W;
    forall p | p in accounts'
      ensures AccountOk(c, p, accounts'[p], claims - {i})
    {
      if p == x.owner {
        HandledOwner(c, x, accounts[p], a, claims, claims - {i});
      } else {
        OtherOwner(c, p, x);
        SameClaimsOn(c, p, accounts[p], claims, claims - {i});
      }
    }
  }

  lemma HandledBalance(l: Ledger, i: ClaimId, a: Account, fees: int, dq: int, db: int)
    requires Balanced(l, dq, db) && i in l.claims && l.claims[i].owner in l.accounts
    requires var c, x := l.market.config, l.claims[i];
             var was := l.accounts[x.owner];
             && H(HeldQuote, a) == H(HeldQuote, was) + W(c, QuoteOwed, x)
             && H(HeldBase, a) == H(HeldBase, was) + W(c, BaseOwed, x)
             && H(Rebates, a) == H(Rebates, was) + fees
    ensures Balanced(Ledger(l.market.(referrerRebatesAccrued := l.market.referrerRebatesAccrued + fees),
                            l.accounts[l.claims[i].owner := a], l.claims - {i}), dq, db)
  {
    hide W, S, H, T;
    DropClaim(l.market.config, l.claims, i);
    PutAccount(l.accounts, l.claims[i].owner, a);
  }

  /** A handled claim keeps the invariant. */
  lemma HandledKeeps(l: Ledger, i: ClaimId, a: Account, fees: int, dq: int, db: int)
    requires Inv(l, dq, db) && i in l.claims && l.claims[i].owner in l.accounts
    requires var c, x := l.market.config, l.claims[i];
             var was := l.accounts[x.owner];
             && x.slot < |was.slots|
             && a.slots == (if x.HoldsSlot() then was.slots[x.slot := FreeOrder] else was.slots)
             && PaysClaim(c, x, was, a)
             && a.position.referrerRebates == was.position.referrerRebates + fees
    ensures Inv(Ledger(l.market.(referrerRebatesAccrued := l.market.referrerRebatesAccrued + fees),
                       l.accounts[l.claims[i].owner := a], l.claims - {i}), dq, db)
  {
    HandledBalance(l, i, a, fees, dq, db) by {
      hide Inv, PaysClaim, W, S, T;
      InvParts(l, dq, db);
      PaidParts(l.market.config, l.claims[i], l.accounts[l.claims[i].owner], a);
    }
    hide S, T, W, H, ClaimsOk, Exclusive, NoLeak, AccountsOk, Balanced, PaysClaim;
    HandledLinks(l.accounts, l.claims, i, a);
    HandledAccounts(l.market.config, l.accounts, l.claims, i, a);
  }

  lemma InvParts(l: Ledger, dq: int, db: int)
    requires Inv(l, dq, db)
    ensures l.market.config.Ok() && ClaimsOk(l.accounts, l.claims) && Exclusive(l.claims) && NoLeak(l.accounts, l.claims)
    ensures AccountsOk(l.market.config, l.accounts, l.claims) && Balanced(l, dq, db)
  {
  }

  lemma PaidParts(c: Config, x: Claim, a: Account, b: Account)
    requires PaysClaim(c, x, a, b)
    ensures H(HeldQuote, b) == H(HeldQuote, a) + W(c, QuoteOwed, x)
    ensures H(HeldBase, b) == H(HeldBase, a) + W(c, BaseOwed, x)
  {
  }

  /** The claim that a fill event stands for. */
  function ClaimOfFill(f: Event): Claim
    requires f.Fill?
  {
    Claim(f.maker, f.makerSlot, MakerSide(f), f.quantity, if MakerSide(f).Bid? then FillLockedPrice(f) else 0,
          Matched(f.price, f.maker == f.taker, f.makerOut))
  }

  /** A maker pays a positive fee, or gets a rebate for a negative one; neither if it trades with itself. */
  function FeeRate(c: Config, self: bool): int { if c.makerFee > 0 && !self then c.makerFee else 0 }

  function RebateRate(c: Config, self: bool): int { if c.makerFee < 0 && !self then -c.makerFee else 0 }

  /** What a fill changes in its maker's position, in lots, prices and rates. The fee is what the referrer gets; a rebate is
      what the maker gets beyond the value of the fill. A bid pegged below its limit gets back the difference for which it
      locked funds. */
  ghost predicate MakerGets(c: Config, f: Event, a: Position, b: Position)
    requires f.Fill?
  {
    var quote, fee := f.quantity * f.price * c.quoteLotSize, b.referrerRebates - a.referrerRebates;
    var feeRate, rebateRate := FeeRate(c, f.maker == f.taker), RebateRate(c, f.maker == f.taker);
    && RoundsDown(fee, quote, feeRate) && b.penaltyHeapCount == a.penaltyHeapCount
    && if f.takerSide.Bid? then
         && RoundsDown(b.quoteFree - (a.quoteFree + quote - fee), quote, rebateRate)
         && b == a.(quoteFree := b.quoteFree, asksBaseLots := a.asksBaseLots - f.quantity, referrerRebates := b.referrerRebates)
       else
         var lockPrice := if f.pegLimit == -1 then f.price else f.pegLimit;
         var lock, lockedFee := f.quantity * lockPrice * c.quoteLotSize, a.lockedMakerFees - b.lockedMakerFees;
         && RoundsDown(b.quoteFree - (a.quoteFree + (lock + lockedFee) - (quote + fee)), quote, rebateRate)
         && (if f.pegLimit == -1 then lockedFee == fee else RoundsDown(lockedFee, lock, FeeRate(c, false)))
         && b == a.(quoteFree := b.quoteFree, baseFree := a.baseFree + f.quantity * c.baseLotSize, referrerRebates := b.referrerRebates,
                    lockedMakerFees := b.lockedMakerFees, bidsBaseLots := a.bidsBaseLots - f.quantity,
                    bidsQuoteLots := a.bidsQuoteLots - f.quantity * lockPrice)
  }

  lemma MakerRounds(c: Config, f: Event)
    requires c.Ok() && f.Fill? && f.quantity >= 1 && f.price >= 1
    requires MakerSide(f).Bid? && f.pegLimit != -1 ==> f.pegLimit >= f.price
    ensures var m, self := AmountsOfFill(c, f), f.maker == f.taker;
            var quote := f.quantity * f.price * c.quoteLotSize;
            && m.quoteNative == quote && RoundsDown(m.makerFees, quote, FeeRate(c, self))
            && RoundsDown(m.makerRebate, quote, RebateRate(c, self))
            && (MakerSide(f).Bid? && f.pegLimit != -1 ==>
                  var lock := f.quantity * f.pegLimit * c.quoteLotSize;
                  && RoundsDown(m.lockedMakerFees, lock, FeeRate(c, false)) && m.lockedPrice == f.pegLimit
                  && m.lockedAboveFillPrice == (lock - quote) + (m.lockedMakerFees - m.makerFees))
            && (MakerSide(f).Ask? || f.pegLimit == -1 ==>
                  m.lockedMakerFees == m.makerFees && m.lockedPrice == f.price && m.lockedAboveFillPrice == 0)
  {
    var quote := Quote(c, f.quantity, f.price);
    QuoteMonotone(c, f.quantity, 0, f.price);
    FeesRound(c, quote);
    NoRate(quote);
    if MakerSide(f).Bid? && f.pegLimit != -1 {
      var lock := Quote(c, f.quantity, f.pegLimit);
      QuoteMonotone(c, f.quantity, 0, f.pegLimit);
      FeesRound(c, lock);
      NoRate(lock);
    }
    hide MakerFeesFloor, MakerRebateFloor, RoundsDown;
  }

  lemma NoRate(amount: int)
    ensures RoundsDown(0, amount, 0) && RoundsUp(0, amount, 0)
  {
  }

  lemma MakerChanges(c: Config, a: Account, f: Event)
    requires c.Ok() && f.Fill? && f.quantity >= 1 && f.price >= 1 && f.makerSlot < |a.slots|
    requires MakerSide(f).Bid? && f.pegLimit != -1 ==> f.pegLimit >= f.price
    requires f.makerOut ==> a.slots[f.makerSlot].side == MakerSide(f)
    ensures MakerGets(c, f, a.position, ExecuteMaker(c, a, f).position)
  {
    MakerRounds(c, f);
    hide AmountsOfFill, RoundsDown, FeeRate, RebateRate;
  }

  lemma FillIsOk(accounts: map<Pubkey, Account>, f: Event)
    requires f.Fill? && ClaimOk(accounts, ClaimOfFill(f))
    ensures f.maker in accounts && f.makerSlot < |accounts[f.maker].slots| && f.quantity >= 1 && f.price >= 1
    ensures MakerSide(f).Bid? && f.pegLimit != -1 ==> f.pegLimit >= f.price
    ensures f.makerOut ==> accounts[f.maker].slots[f.makerSlot].side == MakerSide(f)
  {
  }

  /** A fill pays its maker exactly what is owed for it, which is what its lots, prices and rates come to. */
  lemma MakerIsPaid(c: Config, accounts: map<Pubkey, Account>, f: Event)
    requires c.Ok() && f.Fill? && ClaimOk(accounts, ClaimOfFill(f))
    ensures var a := accounts[f.maker];
            var b := ExecuteMaker(c, a, f);
            var m := AmountsOfFill(c, f);
            && PaysClaim(c, ClaimOfFill(f), a, b)
            && b.slots == (if f.makerOut then a.slots[f.makerSlot := FreeOrder] else a.slots)
            && b.position.referrerRebates == a.position.referrerRebates + m.makerFees
            && 0 <= m.makerFees <= m.quoteNative && 0 <= m.makerRebate && 0 <= m.lockedAboveFillPrice && 0 <= m.lockedMakerFees
            && MakerGets(c, f, a.position, b.position)
  {
    FillIsOk(accounts, f);
    MakerChanges(c, accounts[f.maker], f);
    hide MakerGets;
    var quote := Quote(c, f.quantity, f.price);
    QuoteMonotone(c, f.quantity, 0, f.price);
    FeeBounds(c, quote);
    if MakerSide(f).Bid? {
      var lock := Quote(c, f.quantity, FillLockedPrice(f));
      QuoteMonotone(c, f.quantity, f.price, FillLockedPrice(f));
      FeesMonotone(c, quote, lock);
      FeeBounds(c, lock);
    }
  }

  lemma FillPointsAt(accounts: map<Pubkey, Account>, claims: map<ClaimId, Claim>, i: ClaimId, f: Event)
    requires ClaimsOk(accounts, claims) && f.Fill? && i in claims && claims[i] == ClaimOfFill(f)
    ensures ClaimOk(accounts, ClaimOfFill(f))
    ensures f.maker in accounts && f.makerSlot < |accounts[f.maker].slots|
    ensures f.makerOut ==> !accounts[f.maker].slots[f.makerSlot].isFree
    ensures var x := ClaimOfFill(f); x.owner == f.maker && x.slot == f.makerSlot && (x.HoldsSlot() <==> f.makerOut)
  {
    assert ClaimOk(accounts, claims[i]);
  }

  /** Handling a fill keeps the invariant. */
  lemma FillKeeps(l: Ledger, i: ClaimId, f: Event, dq: int, db: int)
    requires Inv(l, dq, db) && f.Fill? && i in l.claims && l.claims[i] == ClaimOfFill(f)
    ensures f.maker in l.accounts && f.makerSlot < |l.accounts[f.maker].slots|
    ensures f.makerOut ==> !l.accounts[f.maker].slots[f.makerSlot].isFree
    ensures var c := l.market.config;
            Inv(Ledger(l.market.(referrerRebatesAccrued := l.market.referrerRebatesAccrued + AmountsOfFill(c, f).makerFees),
                       l.accounts[f.maker := ExecuteMaker(c, l.accounts[f.maker], f)], l.claims - {i}), dq, db)
  {
    hide *;
    InvParts(l, dq, db);
    FillPointsAt(l.accounts, l.claims, i, f);
    MakerIsPaid(l.market.config, l.accounts, f);
    HandledKeeps(l, i, ExecuteMaker(l.market.config, l.accounts[f.maker], f),
                 AmountsOfFill(l.market.config, f).makerFees, dq, db);
  }

  /** What cancelling gives back: base for an ask; for a bid quote at the price it was locked at, with the fee on it rounded
      up. */
  ghost predicate GivesBack(c: Config, side: Side, quantity: int, lockPrice: int, a: Position, b: Position) {
    if side.Ask? then
      b == a.(baseFree := a.baseFree + quantity * c.baseLotSize, asksBaseLots := a.asksBaseLots - quantity)
    else
      var quote, fee := quantity * lockPrice * c.quoteLotSize, a.lockedMakerFees - b.lockedMakerFees;
      && RoundsUp(fee, quote, FeeRate(c, false))
      && b == a.(quoteFree := a.quoteFree + quote + fee, lockedMakerFees := b.lockedMakerFees,
                 bidsBaseLots := a.bidsBaseLots - quantity, bidsQuoteLots := a.bidsQuoteLots - quantity * lockPrice)
  }

  lemma CeilRounds(c: Config, quantity: int, price: int)
    requires c.Ok() && quantity >= 0 && price >= 0
    ensures var quote := quantity * price * c.quoteLotSize; RoundsUp(MakerFeesCeil(c, quote), quote, FeeRate(c, false))
  {
    QuoteMonotone(c, quantity, 0, price);
    FeesRound(c, Quote(c, quantity, price));
    NoRate(Quote(c, quantity, price));
    hide MakerFeesCeil, RoundsUp;
  }

  /** A cancelled order gives its owner back exactly what it locked. */
  lemma CancelPays(c: Config, accounts: map<Pubkey, Account>, x: Claim)
    requires c.Ok() && ClaimOk(accounts, x) && !x.kind.Matched?
    ensures var a := accounts[x.owner];
            var b := CancelOrder(c, a, x.slot, x.quantity);
            && PaysClaim(c, x, a, b)
            && b.slots == a.slots[x.slot := FreeOrder]
            && b.position.referrerRebates == a.position.referrerRebates
            && GivesBack(c, x.side, x.quantity, x.lock, a.position, b.position)
  {
    var quote := Quote(c, x.quantity, x.lock);
    CeilRounds(c, x.quantity, x.lock);
    hide RoundsUp, FeeRate;
    QuoteMonotone(c, x.quantity, 0, x.lock);
    FeeBounds(c, quote);
    assert x.quantity * c.baseLotSize >= 0;
  }

  /** Cancelling keeps the invariant. */
  lemma CancelKeeps(l: Ledger, i: ClaimId, dq: int, db: int)
    requires Inv(l, dq, db) && i in l.claims && !l.claims[i].kind.Matched?
    ensures var x := l.claims[i];
            && x.owner in l.accounts && x.slot < |l.accounts[x.owner].slots|
            && !l.accounts[x.owner].slots[x.slot].isFree
            && Inv(l.(accounts := l.accounts[x.owner := CancelOrder(l.market.config, l.accounts[x.owner], x.slot, x.quantity)],
                      claims := l.claims - {i}), dq, db)
  {
    var x := l.claims[i];
    assert ClaimOk(l.accounts, x);
    hide Inv, PaysClaim, ClaimsOk, CancelOrder;
    InvParts(l, dq, db);
    CancelPays(l.market.config, l.accounts, x);
    HandledKeeps(l, i, CancelOrder(l.market.config, l.accounts[x.owner], x.slot, x.quantity), 0, dq, db);
    assert l.market.(referrerRebatesAccrued := l.market.referrerRebatesAccrued + 0) == l.market;
  }

  // ---------- posting an order ----------

  function PostedFees(c: Config, side: Side, leaf: LeafNode, price: int): int {
    if side.Bid? then MakerFeesCeil(c, Quote(c, leaf.quantity, price)) else 0
  }

  function LockFees(a: Account, fees: int): Account {
    a.(position := a.position.(lockedMakerFees := a.position.lockedMakerFees + fees))
  }

  /** The owner's account once the order is on the book and its maker fees are locked. */
  function Posted(c: Config, a: Account, side: Side, comp: Component, leaf: LeafNode, price: int): Account
    requires leaf.ownerSlot < |a.slots|
  {
    AddOrder(LockFees(a, PostedFees(c, side, leaf, price)), side, comp, leaf, price)
  }

  /** What posting locks: base for an ask; for a bid quote at the locking price, and the fee on it rounded up. */
  ghost predicate Locks(c: Config, side: Side, quantity: int, lockPrice: int, a: Position, b: Position) {
    if side.Ask? then b == a.(asksBaseLots := a.asksBaseLots + quantity)
    else
      && RoundsUp(b.lockedMakerFees - a.lockedMakerFees, quantity * lockPrice * c.quoteLotSize, FeeRate(c, false))
      && b == a.(lockedMakerFees := b.lockedMakerFees, bidsBaseLots := a.bidsBaseLots + quantity,
                 bidsQuoteLots := a.bidsQuoteLots + quantity * lockPrice)
  }

  /** What posting locks, and how it enters the order in its slot. */
  lemma PostingLocks(c: Config, a: Account, side: Side, comp: Component, leaf: LeafNode, price: int)
    requires c.Ok() && leaf.ownerSlot < |a.slots| && leaf.quantity >= 0 && price >= 1
    ensures var b := Posted(c, a, side, comp, leaf, price);
            && Locks(c, side, leaf.quantity, price, a.position, b.position)
            && b.slots == a.slots[leaf.ownerSlot := OpenOrder(false, side, comp, leaf.key, leaf.clientOrderId, price)]
  {
    CeilRounds(c, leaf.quantity, price);
    hide RoundsUp, FeeRate;
  }

  /** Cancelling a posted order takes it out of the position again, and what posting charges for it becomes free. */
  lemma PostThenCancel(c: Config, a: Account, side: Side, comp: Component, leaf: LeafNode, price: int)
    requires leaf.ownerSlot < |a.slots|
    ensures var b := CancelOrder(c, Posted(c, a, side, comp, leaf, price), leaf.ownerSlot, leaf.quantity);
            && b.position == a.position.(quoteFree := a.position.quoteFree + PostedQuote(c, side, leaf, price),
                                         baseFree := a.position.baseFree + PostedBase(c, side, leaf))
            && b.slots == a.slots[leaf.ownerSlot := FreeOrder]
  {
    var s := Posted(c, a, side, comp, leaf, price).slots;
    assert s[leaf.ownerSlot := FreeOrder] == a.slots[leaf.ownerSlot := FreeOrder];
    hide MakerFeesCeil;
  }

  function RestingClaim(side: Side, leaf: LeafNode, price: int): Claim {
    Claim(leaf.owner, leaf.ownerSlot, side, leaf.quantity, if side.Bid? then price else 0, Resting)
  }

  lemma PostHeld(accounts: map<Pubkey, Account>, claims: map<ClaimId, Claim>, i: ClaimId, x: Claim, a: Account)
    requires NoLeak(accounts, claims) && i !in claims && x.owner in accounts && x.kind.Resting?
    requires var was := accounts[x.owner];
             && x.slot < |was.slots| && |a.slots| == |was.slots|
             && (forall s :: 0 <= s < |a.slots| && s != x.slot ==> a.slots[s] == was.slots[s])
    ensures NoLeak(accounts[x.owner := a], claims[i := x])
  {
    var accounts', claims' := accounts[x.owner := a], claims[i := x];
    forall p, s | p in accounts' && 0 <= s < |accounts'[p].slots| && !accounts'[p].slots[s].isFree
      ensures Held(claims', p, s)
    {
      if p == x.owner && s == x.slot {
        assert claims'[i].owner == p && claims'[i].slot == s && claims'[i].HoldsSlot();
      } else {
        assert Held(claims, p, s);
        var k :| k in claims && claims[k].owner == p && claims[k].slot == s && claims[k].HoldsSlot();
        assert claims'[k] == claims[k];
      }
    }
  }

  lemma PostLinks(accounts: map<Pubkey, Account>, claims: map<ClaimId, Claim>, i: ClaimId, x: Claim, a: Account)
    requires ClaimsOk(accounts, claims) && Exclusive(claims) && NoLeak(accounts, claims)
    requires i !in claims && x.owner in accounts && x.kind.Resting?
    requires var was := accounts[x.owner];
             && x.slot < |was.slots| && was.slots[x.slot].isFree
             && |a.slots| == |was.slots| && !a.slots[x.slot].isFree
             && (forall s :: 0 <= s < |a.slots| && s != x.slot ==> a.slots[s] == was.slots[s])
    requires ClaimOk(accounts[x.owner := a], x)
    ensures ClaimsOk(accounts[x.owner := a], claims[i := x]) && Exclusive(claims[i := x])
    ensures NoLeak(accounts[x.owner := a], claims[i := x])
  {
    var accounts', claims' := accounts[x.owner := a], claims[i := x];
    forall k | k in claims
      ensures ClaimOk(accounts', claims[k])
      ensures claims[k].HoldsSlot() ==> claims[k].owner != x.owner || claims[k].slot != x.slot
    {
      assert ClaimOk(accounts, claims[k]);
    }
    PostHeld(accounts, claims, i, x, a);
    hide NoLeak, ClaimOk;
  }

  lemma PostAccounts(c: Config, accounts: map<Pubkey, Account>, claims: map<ClaimId, Claim>, i: ClaimId,
                     side: Side, comp: Component, leaf: LeafNode, price: int)
    requires c.Ok() && AccountsOk(c, accounts, claims) && i !in claims && leaf.owner in accounts
    requires leaf.ownerSlot < |accounts[leaf.owner].slots| && leaf.quantity >= 1 && (side.Bid? ==> price >= 1)
    ensures AccountsOk(c, accounts[leaf.owner := Posted(c, accounts[leaf.owner], side, comp, leaf, price)],
                       claims[i := RestingClaim(side, leaf, price)])
  {
    var x := RestingClaim(side, leaf, price);
    var accounts' := accounts[leaf.owner := Posted(c, accounts[leaf.owner], side, comp, leaf, price)];
    if side.Bid? {
      QuoteMonotone(c, leaf.quantity, 0, price);
      FeeBounds(c, Quote(c, leaf.quantity, price));
    }
    PutClaim(c, claims, i, x);
    forall p | p in accounts'
      ensures AccountOk(c, p, accounts'[p], claims[i := x])
    {
      assert AccountOk(c, p, accounts[p], claims);
      if p != leaf.owner {
        assert W(c, BidBase(p), x) == W(c, BidQuote(p), x) == W(c, BidFee(p), x) == W(c, AskBase(p), x) == 0;
      }
    }
  }

  /** What a posted order makes due. */
  function PostedQuote(c: Config, side: Side, leaf: LeafNode, price: int): int {
    if side.Bid? then Quote(c, leaf.quantity, price) + PostedFees(c, side, leaf, price) else 0
  }

  function PostedBase(c: Config, side: Side, leaf: LeafNode): int {
    if side.Ask? then leaf.quantity * c.baseLotSize else 0
  }

  lemma PostBalance(l: Ledger, i: ClaimId, side: Side, comp: Component, leaf: LeafNode, price: int, dq: int, db: int)
    requires Balanced(l, dq, db) && i !in l.claims && leaf.owner in l.accounts
    requires leaf.ownerSlot < |l.accounts[leaf.owner].slots|
    ensures var c := l.market.config;
            Balanced(l.(accounts := l.accounts[leaf.owner := Posted(c, l.accounts[leaf.owner], side, comp, leaf, price)],
                        claims := l.claims[i := RestingClaim(side, leaf, price)]),
                     dq + PostedQuote(c, side, leaf, price), db + PostedBase(c, side, leaf))
  {
    hide S, T;
    var c, x := l.market.config, RestingClaim(side, leaf, price);
    PutClaim(c, l.claims, i, x);
    PutAccount(l.accounts, leaf.owner, Posted(c, l.accounts[leaf.owner], side, comp, leaf, price));
  }

  /** Posting keeps the invariant; what the order locks becomes due. */
  lemma PostKeeps(l: Ledger, i: ClaimId, side: Side, comp: Component, leaf: LeafNode, price: int, dq: int, db: int)
    requires Inv(l, dq, db) && i !in l.claims && leaf.owner in l.accounts
    requires leaf.ownerSlot < |l.accounts[leaf.owner].slots| && l.accounts[leaf.owner].slots[leaf.ownerSlot].isFree
    requires leaf.quantity >= 1 && (side.Bid? ==> price >= 1)
    ensures var c := l.market.config;
            Inv(l.(accounts := l.accounts[leaf.owner := Posted(c, l.accounts[leaf.owner], side, comp, leaf, price)],
                   claims := l.claims[i := RestingClaim(side, leaf, price)]),
                dq + PostedQuote(c, side, leaf, price), db + PostedBase(c, side, leaf))
  {
    hide S, T, W, ClaimsOk, Exclusive, NoLeak, AccountsOk, Balanced;
    PostBalance(l, i, side, comp, leaf, price, dq, db);
    PostAccounts(l.market.config, l.accounts, l.claims, i, side, comp, leaf, price);
    PostLinks(l.accounts, l.claims, i, RestingClaim(side, leaf, price),
              Posted(l.market.config, l.accounts[leaf.owner], side, comp, leaf, price));
  }

  /** Locking fees and cancelling another order of the same account commute. */
  lemma LockThenCancel(c: Config, a: Account, fees: int, slot: nat, quantity: int)
    requires slot < |a.slots|
    ensures CancelOrder(c, LockFees(a, fees), slot, quantity) == LockFees(CancelOrder(c, a, slot, quantity), fees)
  {
  }

  // ---------- moving free funds ----------

  /** Nothing but free funds, rebates and locked fees differs. */
  predicate SameOrders(a: Account, b: Account) {
    && a.slots == b.slots
    && a.position.bidsBaseLots == b.position.bidsBaseLots
    && a.position.asksBaseLots == b.position.asksBaseLots
    && a.position.bidsQuoteLots == b.position.bidsQuoteLots
  }

  lemma MoneyAccounts(c: Config, accounts: map<Pubkey, Account>, claims: map<ClaimId, Claim>, p: Pubkey, a: Account)
    requires AccountsOk(c, accounts, claims) && p in accounts && SameOrders(accounts[p], a)
    requires a.position.baseFree >= 0 && a.position.quoteFree >= 0 && a.position.referrerRebates >= 0
    requires a.position.lockedMakerFees >= S(c, BidFee(p), claims) && (c.makerFee <= 0 ==> a.position.lockedMakerFees == 0)
    ensures AccountsOk(c, accounts[p := a], claims)
  {
    var accounts' := accounts[p := a];
    forall q | q in accounts'
      ensures AccountOk(c, q, accounts'[q], claims)
    {
      assert AccountOk(c, q, accounts[q], claims);
    }
  }

  lemma MoneyLinks(accounts: map<Pubkey, Account>, claims: map<ClaimId, Claim>, p: Pubkey, a: Account)
    requires ClaimsOk(accounts, claims) && NoLeak(accounts, claims) && p in accounts && accounts[p].slots == a.slots
    ensures ClaimsOk(accounts[p := a], claims) && NoLeak(accounts[p := a], claims)
  {
    forall i | i in claims
      ensures ClaimOk(accounts[p := a], claims[i])
    {
      assert ClaimOk(accounts, claims[i]);
    }
    forall q, s | q in accounts[p := a] && 0 <= s < |accounts[p := a][q].slots| && !accounts[p := a][q].slots[s].isFree
      ensures Held(claims, q, s)
    {
      assert !accounts[q].slots[s].isFree;
    }
  }

  /** Moving funds of one account against the vault totals, the fees and what is due keeps the invariant. */
  lemma MoneyKeeps(l: Ledger, p: Pubkey, a: Account, market: Market, dq: int, db: int, dq': int, db': int)
    requires Inv(l, dq, db) && p in l.accounts && SameOrders(l.accounts[p], a)
    requires a.position.baseFree >= 0 && a.position.quoteFree >= 0 && a.position.referrerRebates >= 0
    requires a.position.lockedMakerFees >= S(l.market.config, BidFee(p), l.claims)
    requires l.market.config.makerFee <= 0 ==> a.position.lockedMakerFees == 0
    requires market.config == l.market.config && market.feesAvailable >= 0
    requires market.quoteDepositTotal + dq' - H(HeldQuote, a) - market.feesAvailable
          == l.market.quoteDepositTotal + dq - H(HeldQuote, l.accounts[p]) - l.market.feesAvailable
    requires market.baseDepositTotal + db' - H(HeldBase, a)
          == l.market.baseDepositTotal + db - H(HeldBase, l.accounts[p])
    requires market.referrerRebatesAccrued - H(Rebates, a)
          == l.market.referrerRebatesAccrued - H(Rebates, l.accounts[p])
    ensures Inv(Ledger(market, l.accounts[p := a], l.claims), dq', db')
  {
    hide S, T, H, ClaimsOk, Exclusive, NoLeak, AccountsOk;
    PutAccount(l.accounts, p, a);
    MoneyAccounts(l.market.config, l.accounts, l.claims, p, a);
    MoneyLinks(l.accounts, l.claims, p, a);
  }

  lemma OwnerOk(l: Ledger, p: Pubkey, dq: int, db: int)
    requires Inv(l, dq, db) && p in l.accounts
    ensures AccountOk(l.market.config, p, l.accounts[p], l.claims)
  {
  }

  // ---------- opening and closing accounts ----------

  /** Without lots in its position an account has no claims, and no maker fees need to be locked for it. */
  lemma NoLotsNoClaims(l: Ledger, p: Pubkey, dq: int, db: int)
    requires Inv(l, dq, db) && p in l.accounts
    ensures l.accounts[p].position.bidsBaseLots == 0 ==>
              && S(l.market.config, BidFee(p), l.claims) == 0
              && forall i :: i in l.claims && l.claims[i].owner == p ==> l.claims[i].side.Ask?
    ensures l.accounts[p].position.asksBaseLots == 0 ==>
              forall i :: i in l.claims && l.claims[i].owner == p ==> l.claims[i].side.Bid?
  {
    var c, claims := l.market.config, l.claims;
    OwnerOk(l, p, dq, db);
    forall i | i in claims && claims[i].owner == p
      ensures l.accounts[p].position.bidsBaseLots == 0 ==> claims[i].side.Ask?
      ensures l.accounts[p].position.asksBaseLots == 0 ==> claims[i].side.Bid?
    {
      assert ClaimOk(l.accounts, claims[i]);
      LotsAtLeast(c, l.accounts, claims, p, i);
    }
    if l.accounts[p].position.bidsBaseLots == 0 {
      SumZero(claims, WeightOf(c, BidFee(p)));
    }
  }

  lemma LotsAtLeast(c: Config, accounts: map<Pubkey, Account>, claims: map<ClaimId, Claim>, p: Pubkey, i: ClaimId)
    requires ClaimsOk(accounts, claims) && i in claims
    ensures W(c, BidBase(p), claims[i]) <= S(c, BidBase(p), claims)
    ensures W(c, AskBase(p), claims[i]) <= S(c, AskBase(p), claims)
  {
    forall k | k in claims
      ensures WeightOf(c, BidBase(p))(claims[k]) >= 0 && WeightOf(c, AskBase(p))(claims[k]) >= 0
    {
      assert ClaimOk(accounts, claims[k]);
    }
    SumAtLeast(claims, i, WeightOf(c, BidBase(p)));
    SumAtLeast(claims, i, WeightOf(c, AskBase(p)));
  }

  /** The invariant when there is nothing yet. */
  lemma EmptyLedger(c: Config)
    requires c.Ok()
    ensures Inv(Ledger(Market(c, 0, 0, 0, 0, 0), map[], map[]), 0, 0)
  {
  }

  lemma OpenLinks(accounts: map<Pubkey, Account>, claims: map<ClaimId, Claim>, p: Pubkey)
    requires ClaimsOk(accounts, claims) && NoLeak(accounts, claims) && p !in accounts
    ensures ClaimsOk(accounts[p := NewAccount], claims) && NoLeak(accounts[p := NewAccount], claims)
    ensures forall i :: i in claims ==> claims[i].owner != p
  {
    var accounts' := accounts[p := NewAccount];
    forall i | i in claims
      ensures ClaimOk(accounts', claims[i]) && claims[i].owner != p
    {
      assert ClaimOk(accounts, claims[i]);
    }
    forall q, s | q in accounts' && 0 <= s < |accounts'[q].slots| && !accounts'[q].slots[s].isFree
      ensures Held(claims, q, s)
    {
      assert q != p;
      assert !accounts[q].slots[s].isFree;
    }
  }

  lemma NothingOwned(c: Config, claims: map<ClaimId, Claim>, p: Pubkey, w: Weight)
    requires forall i :: i in claims ==> claims[i].owner != p
    requires w in {BidBase(p), BidQuote(p), BidFee(p), AskBase(p)}
    ensures S(c, w, claims) == 0
  {
    SumZero(claims, WeightOf(c, w));
  }

  lemma OpenKeeps(l: Ledger, p: Pubkey, dq: int, db: int)
    requires Inv(l, dq, db) && p !in l.accounts
    ensures Inv(l.(accounts := l.accounts[p := NewAccount]), dq, db)
  {
    var c, accounts' := l.market.config, l.accounts[p := NewAccount];
    hide S, ClaimsOk, NoLeak, Exclusive, W;
    OpenLinks(l.accounts, l.claims, p);
    forall w: Weight | w in {BidBase(p), BidQuote(p), BidFee(p), AskBase(p)}
      ensures S(c, w, l.claims) == 0
    {
      NothingOwned(c, l.claims, p, w);
    }
    forall h ensures T(h, accounts') == T(h, l.accounts) {
      SumInsert(l.accounts, p, NewAccount, HoldingOf(h));
    }
    hide T;
    forall q | q in accounts'
      ensures AccountOk(c, q, accounts'[q], l.claims)
    {
      if q != p { OwnerOk(l, q, dq, db); }
    }
  }

  lemma CloseLinks(accounts: map<Pubkey, Account>, claims: map<ClaimId, Claim>, p: Pubkey)
    requires ClaimsOk(accounts, claims) && NoLeak(accounts, claims)
    requires forall i :: i in claims ==> claims[i].owner != p
    ensures ClaimsOk(accounts - {p}, claims) && NoLeak(accounts - {p}, claims)
  {
    var accounts' := accounts - {p};
    forall i | i in claims
      ensures ClaimOk(accounts', claims[i])
    {
      assert ClaimOk(accounts, claims[i]);
    }
    forall q, s | q in accounts' && 0 <= s < |accounts'[q].slots| && !accounts'[q].slots[s].isFree
      ensures Held(claims, q, s)
    {
      assert !accounts[q].slots[s].isFree;
    }
  }

  /** An account with an empty position has no claims left, so it can be closed. */
  lemma CloseKeeps(l: Ledger, p: Pubkey, dq: int, db: int)
    requires Inv(l, dq, db) && p in l.accounts && l.accounts[p].position.IsEmpty()
    ensures forall i :: i in l.claims ==> l.claims[i].owner != p
    ensures Inv(l.(accounts := l.accounts - {p}), dq, db)
  {
    var c, accounts' := l.market.config, l.accounts - {p};
    hide S, ClaimsOk, NoLeak, Exclusive, W;
    NoLotsNoClaims(l, p, dq, db);
    CloseLinks(l.accounts, l.claims, p);
    forall h ensures T(h, accounts') == T(h, l.accounts) {
      SumRemove(l.accounts, p, HoldingOf(h));
    }
    hide T;
    forall q | q in accounts'
      ensures AccountOk(c, q, accounts'[q], l.claims)
    {
      OwnerOk(l, q, dq, db);
    }
  }
}
