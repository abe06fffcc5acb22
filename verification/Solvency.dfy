/** What the accounting invariant means: the vaults cover every claim, and an empty market owes nothing. */
module Solvency {
  import opened Types
  import opened Markets
  import opened Accounts
  import opened Sums
  import opened Ledgers

  lemma ClaimsOweNothingNegative(c: Config, accounts: map<Pubkey, Account>, claims: map<ClaimId, Claim>)
    requires c.Ok() && ClaimsOk(accounts, claims)
    ensures forall i :: i in claims ==> W(c, QuoteOwed, claims[i]) >= 0 && W(c, BaseOwed, claims[i]) >= 0
    ensures S(c, QuoteOwed, claims) >= 0 && S(c, BaseOwed, claims) >= 0
  {
    forall i | i in claims
      ensures W(c, QuoteOwed, claims[i]) >= 0 && W(c, BaseOwed, claims[i]) >= 0
    {
      assert ClaimOk(accounts, claims[i]);
      OwedNotNegative(c, claims[i]);
    }
    SumNonNegative(claims, WeightOf(c, QuoteOwed));
    SumNonNegative(claims, WeightOf(c, BaseOwed));
  }

  /** Every claim is worth something in one of the vaults. */
  lemma OwedNotNegative(c: Config, x: Claim)
    requires c.Ok() && x.quantity >= 1 && (x.side.Bid? ==> x.lock >= 1)
    requires x.kind.Matched? ==> x.kind.price >= 1 && (x.side.Bid? ==> x.kind.price <= x.lock)
    ensures QuoteOwedBy(c, x) >= 0 && BaseOwedBy(c, x) >= 0
    ensures QuoteOwedBy(c, x) + BaseOwedBy(c, x) >= 1
  {
    assert x.quantity * c.baseLotSize >= 1;
    if x.side.Bid? { QuotePositive(c, x.quantity, x.lock); }
    if x.kind.Matched? {
      QuotePositive(c, x.quantity, x.kind.price);
      FeeBounds(c, Quote(c, x.quantity, x.kind.price));
      if x.side.Bid? { QuoteMonotone(c, x.quantity, x.kind.price, x.lock); }
    }
  }

  lemma QuotePositive(c: Config, q: int, price: int)
    requires c.Ok() && q >= 1 && price >= 1
    ensures Quote(c, q, price) >= 1
  {
    assert q * price >= 1;
    MulMonotone(1, q * price, c.quoteLotSize);
  }

  lemma HoldingsNotNegative(l: Ledger, dq: int, db: int)
    requires Inv(l, dq, db)
    ensures forall p, h :: p in l.accounts ==> 0 <= H(h, l.accounts[p]) <= T(h, l.accounts)
    ensures forall h :: T(h, l.accounts) >= 0
  {
    forall p | p in l.accounts
      ensures forall h :: H(h, l.accounts[p]) >= 0
    {
      OwnerOk(l, p, dq, db);
      FeesNotNegative(l, p, dq, db);
    }
    hide H;
    forall h
      ensures T(h, l.accounts) >= 0
    {
      SumNonNegative(l.accounts, HoldingOf(h));
    }
    forall p, h | p in l.accounts
      ensures H(h, l.accounts[p]) <= T(h, l.accounts)
    {
      SumAtLeast(l.accounts, p, HoldingOf(h));
    }
  }

  /** Locked maker fees never fall below zero. */
  lemma FeesNotNegative(l: Ledger, p: Pubkey, dq: int, db: int)
    requires Inv(l, dq, db) && p in l.accounts
    ensures 0 <= S(l.market.config, BidFee(p), l.claims) <= l.accounts[p].position.lockedMakerFees
  {
    var c := l.market.config;
    OwnerOk(l, p, dq, db);
    forall i | i in l.claims
      ensures WeightOf(c, BidFee(p))(l.claims[i]) >= 0
    {
      assert ClaimOk(l.accounts, l.claims[i]);
      if l.claims[i].side.Bid? {
        QuoteMonotone(c, l.claims[i].quantity, 0, l.claims[i].lock);
        FeeBounds(c, Quote(c, l.claims[i].quantity, l.claims[i].lock));
      }
    }
    SumNonNegative(l.claims, WeightOf(c, BidFee(p)));
  }

  /** What can be asked of the vaults is there: whatever an account may withdraw, together with the fees. */
  lemma Solvent(l: Ledger, dq: int, db: int)
    requires Inv(l, dq, db)
    ensures forall p :: p in l.accounts ==>
              var a := l.accounts[p].position;
              && a.quoteFree + a.lockedMakerFees + a.referrerRebates + l.market.feesAvailable
                 <= l.market.quoteDepositTotal + dq
              && a.baseFree <= l.market.baseDepositTotal + db
              && a.referrerRebates <= l.market.referrerRebatesAccrued
              && a.lockedMakerFees >= 0 && a.bidsBaseLots >= 0 && a.asksBaseLots >= 0 && a.bidsQuoteLots >= 0
    ensures 0 <= l.market.feesAvailable <= l.market.quoteDepositTotal + dq
    ensures 0 <= l.market.baseDepositTotal + db
  {
    ClaimsOweNothingNegative(l.market.config, l.accounts, l.claims);
    HoldingsNotNegative(l, dq, db);
    forall p | p in l.accounts
      ensures var a := l.accounts[p].position; a.lockedMakerFees >= 0 && a.bidsBaseLots >= 0 && a.asksBaseLots >= 0 && a.bidsQuoteLots >= 0
      ensures H(HeldQuote, l.accounts[p]) <= T(HeldQuote, l.accounts) && H(HeldBase, l.accounts[p]) <= T(HeldBase, l.accounts)
      ensures H(Rebates, l.accounts[p]) <= T(Rebates, l.accounts)
    {
      FeesNotNegative(l, p, dq, db);
      LotsNotNegative(l, p, dq, db);
    }
  }

  lemma LotsNotNegative(l: Ledger, p: Pubkey, dq: int, db: int)
    requires Inv(l, dq, db) && p in l.accounts
    ensures var a := l.accounts[p].position; a.bidsBaseLots >= 0 && a.asksBaseLots >= 0 && a.bidsQuoteLots >= 0
  {
    hide Inv, S, W;
    OwnerOk(l, p, dq, db);
    InvParts(l, dq, db);
    LotsTotal(l.market.config, l.accounts, l.claims, BidBase(p));
    LotsTotal(l.market.config, l.accounts, l.claims, AskBase(p));
    LotsTotal(l.market.config, l.accounts, l.claims, BidQuote(p));
  }

  lemma LotsTotal(c: Config, accounts: map<Pubkey, Account>, claims: map<ClaimId, Claim>, w: Weight)
    requires ClaimsOk(accounts, claims) && (w.BidBase? || w.AskBase? || w.BidQuote?)
    ensures S(c, w, claims) >= 0
  {
    forall i | i in claims
      ensures WeightOf(c, w)(claims[i]) >= 0
    {
      assert ClaimOk(accounts, claims[i]);
    }
    SumNonNegative(claims, WeightOf(c, w));
  }

  // ---------- an empty market ----------

  /** Nobody is owed anything. */
  ghost predicate NothingOwed(l: Ledger) {
    && l.claims == map[]
    && l.market.feesAvailable == 0
    && forall p :: p in l.accounts ==>
         var a := l.accounts[p].position;
         a.quoteFree == 0 && a.baseFree == 0 && a.lockedMakerFees == 0 && a.referrerRebates == 0
  }

  /** The check that lets a market be closed holds exactly when no order, event, account or fee is owed anything. */
  lemma EmptyMarketOwesNothing(l: Ledger)
    requires Inv(l, 0, 0)
    ensures l.market.IsEmpty() <==> NothingOwed(l)
  {
    var c := l.market.config;
    ClaimsOweNothingNegative(c, l.accounts, l.claims);
    HoldingsNotNegative(l, 0, 0);
    if l.market.IsEmpty() {
      assert S(c, QuoteOwed, l.claims) == 0 && S(c, BaseOwed, l.claims) == 0;
      forall i | i in l.claims
        ensures false
      {
        ClaimsNotZero(c, l.accounts, l.claims, i);
      }
      assert l.claims == map[];
      forall p | p in l.accounts
        ensures var a := l.accounts[p].position;
                a.quoteFree == 0 && a.baseFree == 0 && a.lockedMakerFees == 0 && a.referrerRebates == 0
      {
        OwnerOk(l, p, 0, 0);
        FeesNotNegative(l, p, 0, 0);
        assert 0 <= H(HeldQuote, l.accounts[p]) <= T(HeldQuote, l.accounts);
        assert 0 <= H(HeldBase, l.accounts[p]) <= T(HeldBase, l.accounts);
      }
    }
    if NothingOwed(l) {
      forall h ensures T(h, l.accounts) == 0 { SumZero(l.accounts, HoldingOf(h)); }
    }
  }

  lemma ClaimsNotZero(c: Config, accounts: map<Pubkey, Account>, claims: map<ClaimId, Claim>, i: ClaimId)
    requires c.Ok() && ClaimsOk(accounts, claims) && i in claims
    ensures S(c, QuoteOwed, claims) + S(c, BaseOwed, claims) >= 1
  {
    assert ClaimOk(accounts, claims[i]);
    OwedNotNegative(c, claims[i]);
    ClaimsOweNothingNegative(c, accounts, claims);
    SumAtLeast(claims, i, WeightOf(c, QuoteOwed));
    SumAtLeast(claims, i, WeightOf(c, BaseOwed));
  }

  // ---------- the balance in terms of positions and pending fills ----------

  /** What all bids of the accounts lock, by their positions. */
  function LockedQuoteOf(c: Config, a: Account): int { a.position.bidsQuoteLots * c.quoteLotSize }

  function LockedBaseOf(c: Config, a: Account): int { a.position.asksBaseLots * c.baseLotSize }

  /** The totals of the positions over all accounts. */
  ghost function TotalLockedQuote(c: Config, accounts: map<Pubkey, Account>): int { Sum(accounts, LockedQuoteFn(c)) }

  ghost function TotalLockedBase(c: Config, accounts: map<Pubkey, Account>): int { Sum(accounts, LockedBaseFn(c)) }

  function LockedQuoteFn(c: Config): Account -> int { a => LockedQuoteOf(c, a) }

  function LockedBaseFn(c: Config): Account -> int { a => LockedBaseOf(c, a) }

  /** What a pending fill adds to or takes from what the positions say, in quote: the maker's proceeds and rebate for a
      filled ask, the rebate less what the taker was already paid for a filled bid. */
  function PendingQuote(c: Config, x: Claim): int {
    match x.kind
    case Matched(price, _, _) =>
      if x.side.Bid? then Rebate(c, x) - Quote(c, x.quantity, price) else Quote(c, x.quantity, price) + Rebate(c, x)
    case _ => 0
  }

  function PendingBase(c: Config, x: Claim): int {
    match x.kind
    case Matched(_, _, _) => if x.side.Bid? then x.quantity * c.baseLotSize else -(x.quantity * c.baseLotSize)
    case _ => 0
  }

  ghost function TotalPendingQuote(c: Config, claims: map<ClaimId, Claim>): int { Sum(claims, PendingQuoteFn(c)) }

  ghost function TotalPendingBase(c: Config, claims: map<ClaimId, Claim>): int { Sum(claims, PendingBaseFn(c)) }

  function PendingQuoteFn(c: Config): Claim -> int { x => PendingQuote(c, x) }

  function PendingBaseFn(c: Config): Claim -> int { x => PendingBase(c, x) }

  /** The part of the claims that lies with the accounts in `ps`. */
  function LockedWith(c: Config, ps: set<Pubkey>, x: Claim): int {
    if x.owner in ps && x.side.Bid? then Quote(c, x.quantity, x.lock) else 0
  }

  function BaseLockedWith(c: Config, ps: set<Pubkey>, x: Claim): int {
    if x.owner in ps && x.side.Ask? then x.quantity * c.baseLotSize else 0
  }

  function LockedWithFn(c: Config, ps: set<Pubkey>): Claim -> int { x => LockedWith(c, ps, x) }

  function BaseLockedWithFn(c: Config, ps: set<Pubkey>): Claim -> int { x => BaseLockedWith(c, ps, x) }

  lemma {:induction false} ScaledSum(claims: map<ClaimId, Claim>, f: Claim -> int, g: Claim -> int, m: int)
    requires forall x :: g(x) == f(x) * m
    ensures Sum(claims, g) == Sum(claims, f) * m
    decreases |claims|
  {
    hide Sum;
    if claims == map[] {
      SumOfNone(claims, f);
      SumOfNone(claims, g);
    } else {
      var i :| i in claims;
      SumRemove(claims, i, f);
      SumRemove(claims, i, g);
      ScaledSum(claims - {i}, f, g, m);
      Distributes(f(claims[i]), Sum(claims - {i}, f), m);
    }
  }

  lemma Distributes(a: int, b: int, m: int)
    ensures (a + b) * m == a * m + b * m
  {
  }

  lemma OneMoreQuoteOwner(c: Config, claims: map<ClaimId, Claim>, ps: set<Pubkey>, p: Pubkey)
    requires p !in ps
    ensures Sum(claims, LockedWithFn(c, ps + {p})) == Sum(claims, LockedWithFn(c, ps)) + S(c, BidQuote(p), claims) * c.quoteLotSize
  {
    ScaledSum(claims, WeightOf(c, BidQuote(p)), LockedWithFn(c, {p}), c.quoteLotSize);
    hide Sum;
    SumAdds(claims, LockedWithFn(c, ps), LockedWithFn(c, {p}), LockedWithFn(c, ps + {p}));
  }

  /** Adding the positions up over the accounts gives what the claims lock. */
  lemma {:induction false} QuotePositionsAddUp(c: Config, accounts: map<Pubkey, Account>, claims: map<ClaimId, Claim>)
    requires forall p :: p in accounts ==> accounts[p].position.bidsQuoteLots == S(c, BidQuote(p), claims)
    ensures TotalLockedQuote(c, accounts) == Sum(claims, LockedWithFn(c, accounts.Keys))
    decreases |accounts|
  {
    hide Sum, S;
    if accounts == map[] {
      SumZero(claims, LockedWithFn(c, {}));
      SumOfNone(accounts, LockedQuoteFn(c));
      assert accounts.Keys == {};
    } else {
      var p :| p in accounts;
      var rest := accounts - {p};
      QuotePositionsAddUp(c, rest, claims);
      SumRemove(accounts, p, LockedQuoteFn(c));
      OneMoreQuoteOwner(c, claims, rest.Keys, p);
      assert rest.Keys + {p} == accounts.Keys;
    }
  }

  lemma OneMoreBaseOwner(c: Config, claims: map<ClaimId, Claim>, ps: set<Pubkey>, p: Pubkey)
    requires p !in ps
    ensures Sum(claims, BaseLockedWithFn(c, ps + {p})) == Sum(claims, BaseLockedWithFn(c, ps)) + S(c, AskBase(p), claims) * c.baseLotSize
  {
    ScaledSum(claims, WeightOf(c, AskBase(p)), BaseLockedWithFn(c, {p}), c.baseLotSize);
    hide Sum;
    SumAdds(claims, BaseLockedWithFn(c, ps), BaseLockedWithFn(c, {p}), BaseLockedWithFn(c, ps + {p}));
  }

  lemma {:induction false} BasePositionsAddUp(c: Config, accounts: map<Pubkey, Account>, claims: map<ClaimId, Claim>)
    requires forall p :: p in accounts ==> accounts[p].position.asksBaseLots == S(c, AskBase(p), claims)
    ensures TotalLockedBase(c, accounts) == Sum(claims, BaseLockedWithFn(c, accounts.Keys))
    decreases |accounts|
  {
    hide Sum, S;
    if accounts == map[] {
      SumZero(claims, BaseLockedWithFn(c, {}));
      SumOfNone(accounts, LockedBaseFn(c));
      assert accounts.Keys == {};
    } else {
      var p :| p in accounts;
      var rest := accounts - {p};
      BasePositionsAddUp(c, rest, claims);
      SumRemove(accounts, p, LockedBaseFn(c));
      OneMoreBaseOwner(c, claims, rest.Keys, p);
      assert rest.Keys + {p} == accounts.Keys;
    }
  }

  lemma OwedIsLockedAndPending(c: Config, accounts: map<Pubkey, Account>, claims: map<ClaimId, Claim>)
    requires ClaimsOk(accounts, claims)
    ensures S(c, QuoteOwed, claims) == Sum(claims, LockedWithFn(c, accounts.Keys)) + TotalPendingQuote(c, claims)
    ensures S(c, BaseOwed, claims) == Sum(claims, BaseLockedWithFn(c, accounts.Keys)) + TotalPendingBase(c, claims)
  {
    forall i | i in claims
      ensures claims[i].owner in accounts
    {
      assert ClaimOk(accounts, claims[i]);
    }
    SumAdds(claims, LockedWithFn(c, accounts.Keys), PendingQuoteFn(c), WeightOf(c, QuoteOwed));
    SumAdds(claims, BaseLockedWithFn(c, accounts.Keys), PendingBaseFn(c), WeightOf(c, BaseOwed));
  }

  /** Quote conservation: the vault's quote total is the accounts' free quote, locked quote, locked fees and rebates,
      the fees to sweep, and the pending fills. Base conservation: free base, locked base, and the pending fills. */
  lemma Conservation(l: Ledger)
    requires Inv(l, 0, 0)
    ensures var c := l.market.config;
            && l.market.quoteDepositTotal
               == T(HeldQuote, l.accounts) + TotalLockedQuote(c, l.accounts)
                + l.market.feesAvailable + TotalPendingQuote(c, l.claims)
            && l.market.baseDepositTotal
               == T(HeldBase, l.accounts) + TotalLockedBase(c, l.accounts) + TotalPendingBase(c, l.claims)
            && l.market.referrerRebatesAccrued == T(Rebates, l.accounts)
  {
    var c := l.market.config;
    forall p | p in l.accounts
      ensures l.accounts[p].position.bidsQuoteLots == S(c, BidQuote(p), l.claims)
      ensures l.accounts[p].position.asksBaseLots == S(c, AskBase(p), l.claims)
    {
      OwnerOk(l, p, 0, 0);
    }
    hide S, T, TotalLockedQuote, TotalLockedBase, TotalPendingQuote, TotalPendingBase;
    QuotePositionsAddUp(c, l.accounts, l.claims);
    BasePositionsAddUp(c, l.accounts, l.claims);
    OwedIsLockedAndPending(c, l.accounts, l.claims);
  }
}
