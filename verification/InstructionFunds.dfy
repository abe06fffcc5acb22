/** Instructions that move funds keep the invariant, and never ask for more than the vaults hold. */
module InstructionFunds {
  import opened Types
  import opened Markets
  import opened Accounts
  import opened Sums
  import opened Ledgers
  import opened Solvency
  import opened EventHeaps
  import opened Exchanges
  import opened ExchangeInvariants
  import opened ExchangeSteps
  import opened ExchangeOrders
  import opened Instructions

  /** Funds move between an account and the vaults, which pays the difference in what is due. */
  predicate Moves(a: Account, b: Account, m: Market, m': Market, quote: int, base: int) {
    && SameOrders(a, b)
    && b.position.baseFree >= 0 && b.position.quoteFree >= 0 && b.position.referrerRebates >= 0
    && m'.config == m.config && m'.seqNum == m.seqNum && m'.feesAvailable >= 0
    && m'.quoteDepositTotal - H(HeldQuote, b) - m'.feesAvailable == m.quoteDepositTotal + quote - H(HeldQuote, a) - m.feesAvailable
    && m'.baseDepositTotal - H(HeldBase, b) == m.baseDepositTotal + base - H(HeldBase, a)
    && m'.referrerRebatesAccrued - H(Rebates, b) == m.referrerRebatesAccrued - H(Rebates, a)
  }

  /** Funds of one account move; nothing else does. */
  lemma FundsMove(ex: Exchange, claims: map<ClaimId, Claim>, p: Pubkey, a: Account, market: Market, dq: int, db: int, dq': int, db': int)
    requires Good(ex, claims, dq, db) && p in ex.accounts && Moves(ex.accounts[p], a, ex.market, market, dq - dq', db - db')
    requires a.position.lockedMakerFees >= S(ex.market.config, BidFee(p), claims)
    requires ex.market.config.makerFee <= 0 ==> a.position.lockedMakerFees == 0
    ensures Good(Exchange(market, ex.accounts[p := a], ex.orders), claims, dq', db')
  {
    hide Inv, S, H, BooksOk, Tally, Tagged, SeqsOk, SlotsShrink;
    GoodParts(ex, claims, dq, db);
    MoneyKeeps(Ledger(ex.market, ex.accounts, claims), p, a, market, dq, db, dq', db');
    SameSlotsTagged(ex.accounts, claims, p, a, ex.market.seqNum);
  }

  lemma OwnerFacts(ex: Exchange, claims: map<ClaimId, Claim>, p: Pubkey, dq: int, db: int)
    requires Good(ex, claims, dq, db) && p in ex.accounts
    ensures AccountOk(ex.market.config, p, ex.accounts[p], claims)
    ensures ex.market.config.Ok() && ex.market.feesAvailable >= 0
    ensures Inv(Ledger(ex.market, ex.accounts, claims), dq, db)
    ensures FundsOk(ex.market.config, p, ex.accounts[p], claims)
  {
    hide Inv, AccountOk, Balanced, FundsOk;
    GoodParts(ex, claims, dq, db);
    InvParts(Ledger(ex.market, ex.accounts, claims), dq, db);
    OwnerOk(Ledger(ex.market, ex.accounts, claims), p, dq, db);
    BalancedFees(Ledger(ex.market, ex.accounts, claims), dq, db);
    AccountFunds(ex.market.config, p, ex.accounts[p], claims);
  }

  ghost predicate FundsOk(c: Config, p: Pubkey, a: Account, claims: map<ClaimId, Claim>) {
    && a.position.baseFree >= 0 && a.position.quoteFree >= 0 && a.position.referrerRebates >= 0
    && a.position.lockedMakerFees >= S(c, BidFee(p), claims)
    && (c.makerFee <= 0 ==> a.position.lockedMakerFees == 0)
  }

  lemma AccountFunds(c: Config, p: Pubkey, a: Account, claims: map<ClaimId, Claim>)
    requires AccountOk(c, p, a, claims)
    ensures FundsOk(c, p, a, claims)
  {
    hide S;
  }

  lemma Charged(ex: Exchange, claims: map<ClaimId, Claim>, owner: Pubkey, quote: int, base: int, penalty: bool)
    requires owner in ex.accounts && quote >= 0 && base >= 0 && ex.market.feesAvailable >= 0
    requires FundsOk(ex.market.config, owner, ex.accounts[owner], claims)
    ensures var ex', a := Charge(ex, owner, quote, base, penalty), ex.accounts[owner];
            && owner in ex'.accounts && ex' == Exchange(ex'.market, ex.accounts[owner := ex'.accounts[owner]], ex.orders)
            && Moves(a, ex'.accounts[owner], ex.market, ex'.market, quote, base)
            && FundsOk(ex.market.config, owner, ex'.accounts[owner], claims)
            && DepositFor(quote, a.position.quoteFree) >= 0 && DepositFor(base, a.position.baseFree) >= 0
  {
    hide S;
  }

  lemma FreeFunds(c: Config, p: Pubkey, a: Account, claims: map<ClaimId, Claim>)
    requires FundsOk(c, p, a, claims)
    ensures a.position.quoteFree >= 0 && a.position.baseFree >= 0
  {
  }

  lemma FundsFacts(c: Config, p: Pubkey, a: Account, claims: map<ClaimId, Claim>)
    requires FundsOk(c, p, a, claims)
    ensures a.position.lockedMakerFees >= S(c, BidFee(p), claims)
    ensures c.makerFee <= 0 ==> a.position.lockedMakerFees == 0
  {
  }

  /** Of what an account is charged, free funds pay as much as they can, and a deposit the rest; nobody else pays. */
  ghost predicate FreeFundsFirst(ex: Exchange, owner: Pubkey, quote: int, base: int, penalty: bool, ex': Exchange)
    requires owner in ex.accounts
  {
    && ex'.accounts.Keys == ex.accounts.Keys && ex'.orders == ex.orders
    && (forall q :: q in ex.accounts && q != owner ==> ex'.accounts[q] == ex.accounts[q])
    && ex'.accounts[owner].slots == ex.accounts[owner].slots
    && var (p, p', m, m') := (ex.accounts[owner].position, ex'.accounts[owner].position, ex.market, ex'.market);
       var (quoteIn, baseIn) := (m'.quoteDepositTotal - m.quoteDepositTotal, m'.baseDepositTotal - m.baseDepositTotal);
       && quoteIn >= 0 && p'.quoteFree >= 0 && p'.quoteFree + quote == p.quoteFree + quoteIn && (quoteIn > 0 ==> p'.quoteFree == 0)
       && baseIn >= 0 && p'.baseFree >= 0 && p'.baseFree + base == p.baseFree + baseIn && (baseIn > 0 ==> p'.baseFree == 0)
       && p' == p.(quoteFree := p'.quoteFree, baseFree := p'.baseFree,
                   penaltyHeapCount := p.penaltyHeapCount + if penalty then 1 else 0)
       && m' == m.(quoteDepositTotal := m'.quoteDepositTotal, baseDepositTotal := m'.baseDepositTotal)
  }

  lemma ChargeIsRight(ex: Exchange, owner: Pubkey, quote: int, base: int, penalty: bool)
    requires owner in ex.accounts && quote >= 0 && base >= 0
    requires ex.accounts[owner].position.quoteFree >= 0 && ex.accounts[owner].position.baseFree >= 0
    ensures FreeFundsFirst(ex, owner, quote, base, penalty, Charge(ex, owner, quote, base, penalty))
    ensures var p, m, m' := ex.accounts[owner].position, ex.market, Charge(ex, owner, quote, base, penalty).market;
            && DepositFor(quote, p.quoteFree) == m'.quoteDepositTotal - m.quoteDepositTotal
            && DepositFor(base, p.baseFree) == m'.baseDepositTotal - m.baseDepositTotal
  {
  }

  /** What was due is paid out of free funds and by a deposit. */
  lemma ChargeKeeps(ex: Exchange, claims: map<ClaimId, Claim>, owner: Pubkey, quote: int, base: int, penalty: bool)
    requires Good(ex, claims, quote, base) && owner in ex.accounts && quote >= 0 && base >= 0
    ensures Good(Charge(ex, owner, quote, base, penalty), claims, 0, 0)
    ensures FreeFundsFirst(ex, owner, quote, base, penalty, Charge(ex, owner, quote, base, penalty))
    ensures var p := ex.accounts[owner].position; DepositFor(quote, p.quoteFree) >= 0 && DepositFor(base, p.baseFree) >= 0
  {
    hide *;
    OwnerFacts(ex, claims, owner, quote, base);
    FreeFunds(ex.market.config, owner, ex.accounts[owner], claims);
    ChargeIsRight(ex, owner, quote, base, penalty);
    Charged(ex, claims, owner, quote, base, penalty);
    var ex' := Charge(ex, owner, quote, base, penalty);
    FundsFacts(ex.market.config, owner, ex'.accounts[owner], claims);
    FundsMove(ex, claims, owner, ex'.accounts[owner], ex'.market, quote, base, 0, 0);
  }

  /** What was due from somebody without an account is paid into (or out of) the vaults. */
  lemma VaultsPay(ex: Exchange, claims: map<ClaimId, Claim>, quote: int, base: int)
    requires Good(ex, claims, quote, base)
    ensures var m := ex.market.(quoteDepositTotal := ex.market.quoteDepositTotal + quote,
                                baseDepositTotal := ex.market.baseDepositTotal + base);
            && Good(ex.(market := m), claims, 0, 0) && m.quoteDepositTotal >= 0 && m.baseDepositTotal >= 0
  {
    var ex' := ex.(market := ex.market.(quoteDepositTotal := ex.market.quoteDepositTotal + quote,
                                        baseDepositTotal := ex.market.baseDepositTotal + base));
    hide S, T, BooksOk, Tally, Tagged, SeqsOk, ClaimsOk, Exclusive, NoLeak, AccountsOk;
    Solvent(Ledger(ex'.market, ex'.accounts, claims), 0, 0);
  }

  // ---------- settling ----------

  /** Who gets what: the owner all free funds; the referrer, or else the market's fees, the rebates and, once the last bid is
      gone, the maker fees that rounding has left locked. Nobody else has more or less. */
  ghost predicate SettlesRightly(ex: Exchange, owner: Pubkey, hasReferrer: bool, ex': Exchange, paid: Payout)
    requires owner in ex.accounts
  {
    var p := ex.accounts[owner].position;
    var leftover := if ex.market.config.makerFee > 0 && p.bidsBaseLots == 0 then p.lockedMakerFees else 0;
    && paid.base == p.baseFree && paid.quote == p.quoteFree
    && (hasReferrer ==> paid.referrer == p.referrerRebates + leftover && ex'.market.feesAvailable == ex.market.feesAvailable)
    && (!hasReferrer ==> paid.referrer == 0 && ex'.market.feesAvailable == ex.market.feesAvailable + p.referrerRebates + leftover)
    && ex'.market.referrerRebatesAccrued == ex.market.referrerRebatesAccrued - p.referrerRebates
    && ex'.accounts.Keys == ex.accounts.Keys && ex'.orders == ex.orders
    && (forall q :: q in ex.accounts && q != owner ==> ex'.accounts[q] == ex.accounts[q])
    && ex'.accounts[owner].slots == ex.accounts[owner].slots
    && ex'.accounts[owner].position == p.(baseFree := 0, quoteFree := 0, referrerRebates := 0, penaltyHeapCount := 0,
                                          lockedMakerFees := p.lockedMakerFees - leftover)
  }

  lemma SettlingIsRight(ex: Exchange, owner: Pubkey, hasReferrer: bool)
    requires owner in ex.accounts
    ensures SettleFunds(ex, owner, hasReferrer).Ok?
    ensures var (ex', paid) := SettleFunds(ex, owner, hasReferrer).value; SettlesRightly(ex, owner, hasReferrer, ex', paid)
  {
  }

  /** Settling keeps the invariant. What it pays out was in the vaults, and afterwards nothing is left to pay out; maker fees
      that stay locked after the last bid are zero. */
  /** Settling keeps the invariant, pays everybody what is due, and what it pays out was in the vaults. */
  lemma SettleKeeps(ex: Exchange, claims: map<ClaimId, Claim>, owner: Pubkey, hasReferrer: bool)
    requires Good(ex, claims, 0, 0) && owner in ex.accounts
    ensures SettleFunds(ex, owner, hasReferrer).Ok?
    ensures var (ex', paid) := SettleFunds(ex, owner, hasReferrer).value;
            && Good(ex', claims, 0, 0)
            && 0 <= paid.base && 0 <= paid.quote && 0 <= paid.referrer
            && ex'.market.baseDepositTotal == ex.market.baseDepositTotal - paid.base >= 0
            && ex'.market.quoteDepositTotal == ex.market.quoteDepositTotal - paid.quote - paid.referrer >= 0
            && ex'.market.referrerRebatesAccrued >= 0
            && SettlesRightly(ex, owner, hasReferrer, ex', paid)
  {
    hide *;
    SettlingIsRight(ex, owner, hasReferrer);
    OwnerFacts(ex, claims, owner, 0, 0);
    RoundOffIsFree(ex, claims, owner);
    SettledAccount(ex, claims, owner, hasReferrer);
    var ex' := SettleFunds(ex, owner, hasReferrer).value.0;
    FundsFacts(ex.market.config, owner, ex'.accounts[owner], claims);
    FundsMove(ex, claims, owner, ex'.accounts[owner], ex'.market, 0, 0, 0, 0);
    VaultsCover(ex', claims);
  }

  /** What is rounded off is not needed for any claim. */
  lemma RoundOffIsFree(ex: Exchange, claims: map<ClaimId, Claim>, p: Pubkey)
    requires Good(ex, claims, 0, 0) && p in ex.accounts
    ensures var a, off := ex.accounts[p].position, RoundOff(ex.market.config, ex.accounts[p].position);
            0 <= off && a.lockedMakerFees - off >= S(ex.market.config, BidFee(p), claims)
    ensures ex.market.config.makerFee <= 0 ==> RoundOff(ex.market.config, ex.accounts[p].position) == 0
  {
    var l := Ledger(ex.market, ex.accounts, claims);
    OwnerFacts(ex, claims, p, 0, 0);
    hide Good, S, Inv, AccountOk;
    NoLotsNoClaims(l, p, 0, 0);
    FeesNotNegative(l, p, 0, 0);
  }

  lemma SettledAccount(ex: Exchange, claims: map<ClaimId, Claim>, owner: Pubkey, hasReferrer: bool)
    requires owner in ex.accounts && ex.market.feesAvailable >= 0
    requires FundsOk(ex.market.config, owner, ex.accounts[owner], claims)
    requires var a, off := ex.accounts[owner].position, RoundOff(ex.market.config, ex.accounts[owner].position);
             0 <= off && a.lockedMakerFees - off >= S(ex.market.config, BidFee(owner), claims)
             && (ex.market.config.makerFee <= 0 ==> off == 0)
    ensures SettleFunds(ex, owner, hasReferrer).Ok?
    ensures var (ex', paid) := SettleFunds(ex, owner, hasReferrer).value;
            var a := ex.accounts[owner];
            && owner in ex'.accounts && ex' == Exchange(ex'.market, ex.accounts[owner := ex'.accounts[owner]], ex.orders)
            && Moves(a, ex'.accounts[owner], ex.market, ex'.market, 0, 0)
            && FundsOk(ex.market.config, owner, ex'.accounts[owner], claims)
            && 0 <= paid.base == a.position.baseFree && 0 <= paid.quote == a.position.quoteFree && 0 <= paid.referrer
            && ex'.market.quoteDepositTotal == ex.market.quoteDepositTotal - paid.quote - paid.referrer
            && ex'.market.baseDepositTotal == ex.market.baseDepositTotal - paid.base
  {
    hide S, RoundOff;
  }

  lemma VaultsCover(ex: Exchange, claims: map<ClaimId, Claim>)
    requires Good(ex, claims, 0, 0)
    ensures ex.market.quoteDepositTotal >= 0 && ex.market.baseDepositTotal >= 0 && ex.market.feesAvailable >= 0
    ensures ex.market.referrerRebatesAccrued >= 0
    ensures ex.market.feesAvailable <= ex.market.quoteDepositTotal
  {
    GoodParts(ex, claims, 0, 0);
    hide Good, Inv;
    var l := Ledger(ex.market, ex.accounts, claims);
    Solvent(l, 0, 0);
    HoldingsNotNegative(l, 0, 0);
    InvParts(l, 0, 0);
    assert T(Rebates, l.accounts) >= 0;
  }

  /** An account without lots in its position can be settled and then closed. */
  lemma SettledCanClose(ex: Exchange, claims: map<ClaimId, Claim>, owner: Pubkey, hasReferrer: bool)
    requires Good(ex, claims, 0, 0) && owner in ex.accounts
    ensures SettleFunds(ex, owner, hasReferrer).Ok?
    ensures var (ex', _) := SettleFunds(ex, owner, hasReferrer).value;
            CloseAccount(ex', owner).Ok? <==>
              ex.accounts[owner].position.bidsBaseLots == 0 && ex.accounts[owner].position.asksBaseLots == 0
  {
    OwnerFacts(ex, claims, owner, 0, 0);
    var l := Ledger(ex.market, ex.accounts, claims);
    hide Good, Inv;
    NoLotsNoClaims(l, owner, 0, 0);
    NoBidsNoQuote(l, owner);
    hide S;
  }

  lemma NoBidsNoQuote(l: Ledger, p: Pubkey)
    requires Inv(l, 0, 0) && p in l.accounts
    ensures l.accounts[p].position.bidsBaseLots == 0 ==> S(l.market.config, BidQuote(p), l.claims) == 0
  {
    hide Inv;
    NoLotsNoClaims(l, p, 0, 0);
    if l.accounts[p].position.bidsBaseLots == 0 {
      SumZero(l.claims, WeightOf(l.market.config, BidQuote(p)));
    }
  }

  // ---------- other funds ----------

  /** An account has more free funds by just as much as the vaults have more; nothing else changes. */
  ghost predicate Credits(ex: Exchange, owner: Pubkey, base: int, quote: int, ex': Exchange)
    requires owner in ex.accounts
  {
    && ex'.accounts.Keys == ex.accounts.Keys && ex'.orders == ex.orders
    && (forall q :: q in ex.accounts && q != owner ==> ex'.accounts[q] == ex.accounts[q])
    && ex'.accounts[owner].slots == ex.accounts[owner].slots
    && var (p, p', m, m') := (ex.accounts[owner].position, ex'.accounts[owner].position, ex.market, ex'.market);
       && p'.baseFree - p.baseFree == m'.baseDepositTotal - m.baseDepositTotal == base
       && p'.quoteFree - p.quoteFree == m'.quoteDepositTotal - m.quoteDepositTotal == quote
       && p' == p.(quoteFree := p'.quoteFree, baseFree := p'.baseFree)
       && m' == m.(quoteDepositTotal := m'.quoteDepositTotal, baseDepositTotal := m'.baseDepositTotal)
  }

  lemma DepositIsRight(ex: Exchange, owner: Pubkey, base: nat, quote: nat)
    requires owner in ex.accounts
    ensures Deposit(ex, owner, base, quote).Ok? && Credits(ex, owner, base, quote, Deposit(ex, owner, base, quote).value)
  {
  }

  lemma DepositKeeps(ex: Exchange, claims: map<ClaimId, Claim>, owner: Pubkey, base: nat, quote: nat)
    requires Good(ex, claims, 0, 0) && owner in ex.accounts
    ensures Deposit(ex, owner, base, quote).Ok? && Good(Deposit(ex, owner, base, quote).value, claims, 0, 0)
    ensures Credits(ex, owner, base, quote, Deposit(ex, owner, base, quote).value)
  {
    hide *;
    DepositIsRight(ex, owner, base, quote);
    OwnerFacts(ex, claims, owner, 0, 0);
    Deposited(ex, claims, owner, base, quote);
    var ex' := Deposit(ex, owner, base, quote).value;
    FundsFacts(ex.market.config, owner, ex'.accounts[owner], claims);
    FundsMove(ex, claims, owner, ex'.accounts[owner], ex'.market, 0, 0, 0, 0);
  }

  lemma Deposited(ex: Exchange, claims: map<ClaimId, Claim>, owner: Pubkey, base: nat, quote: nat)
    requires owner in ex.accounts && ex.market.feesAvailable >= 0
    requires FundsOk(ex.market.config, owner, ex.accounts[owner], claims)
    ensures Deposit(ex, owner, base, quote).Ok?
    ensures var ex' := Deposit(ex, owner, base, quote).value;
            && owner in ex'.accounts && ex' == Exchange(ex'.market, ex.accounts[owner := ex'.accounts[owner]], ex.orders)
            && Moves(ex.accounts[owner], ex'.accounts[owner], ex.market, ex'.market, 0, 0)
            && FundsOk(ex.market.config, owner, ex'.accounts[owner], claims)
  {
    hide S;
  }

  /** Sweeping pays all fees and nothing else, keeps the invariant, and the fees are in the vault. */
  lemma SweepKeeps(ex: Exchange, claims: map<ClaimId, Claim>)
    requires Good(ex, claims, 0, 0)
    ensures var (ex', paid) := SweepFees(ex);
            && Good(ex', claims, 0, 0) && 0 <= paid <= ex.market.quoteDepositTotal && ex'.market.quoteDepositTotal >= 0
            && paid == ex.market.feesAvailable && ex'.market.feesAvailable == 0
            && ex'.market.quoteDepositTotal == ex.market.quoteDepositTotal - paid
            && ex' == ex.(market := ex.market.(feesAvailable := 0, quoteDepositTotal := ex'.market.quoteDepositTotal))
  {
    VaultsCover(ex, claims);
    hide S, T, BooksOk, Tally, Tagged, SeqsOk, ClaimsOk, Exclusive, NoLeak, AccountsOk;
  }

  // ---------- accounts ----------

  /** A new account starts with nothing, in 24 free slots. */
  ghost predicate Opens(ex: Exchange, p: Pubkey, ex': Exchange) {
    && ex' == ex.(accounts := ex'.accounts) && ex'.accounts.Keys == ex.accounts.Keys + {p}
    && (forall q :: q in ex.accounts ==> ex'.accounts[q] == ex.accounts[q])
    && ex'.accounts[p].position.IsEmpty()
    && |ex'.accounts[p].slots| == 24 && forall s :: 0 <= s < 24 ==> ex'.accounts[p].slots[s].isFree
  }

  lemma OpeningIsRight(ex: Exchange, p: Pubkey)
    ensures OpenAccount(ex, p).Ok? <==> p !in ex.accounts
    ensures OpenAccount(ex, p).Ok? ==> Opens(ex, p, OpenAccount(ex, p).value)
  {
  }

  lemma OpenKeepsGood(ex: Exchange, claims: map<ClaimId, Claim>, p: Pubkey)
    requires Good(ex, claims, 0, 0)
    ensures OpenAccount(ex, p).Ok? <==> p !in ex.accounts
    ensures OpenAccount(ex, p).Ok? ==>
              Good(OpenAccount(ex, p).value, claims, 0, 0) && Opens(ex, p, OpenAccount(ex, p).value)
  {
    OpeningIsRight(ex, p);
    hide Opens;
    if p !in ex.accounts {
      var accounts' := ex.accounts[p := NewAccount];
      OpenTags(ex.accounts, claims, p, ex.market.seqNum);
      GoodParts(ex, claims, 0, 0);
      hide Inv, BooksOk, Tally, Tagged, SeqsOk;
      OpenKeeps(Ledger(ex.market, ex.accounts, claims), p, 0, 0);
    }
  }

  lemma OpenTags(accounts: map<Pubkey, Account>, claims: map<ClaimId, Claim>, p: Pubkey, seqNum: int)
    requires Tagged(accounts, claims) && SeqsOk(accounts, seqNum) && p !in accounts
    ensures Tagged(accounts[p := NewAccount], claims) && SeqsOk(accounts[p := NewAccount], seqNum)
  {
    var accounts' := accounts[p := NewAccount];
    forall k | k in claims && k.OnBook?
      ensures TagOk(accounts', k, claims[k])
    {
      assert TagOk(accounts, k, claims[k]);
    }
    forall q, t | InUse(accounts', q, t)
      ensures InUse(accounts, q, t) && SlotSeqNum(accounts', q, t) == SlotSeqNum(accounts, q, t)
    {
    }
  }

  /** An account that may be closed has nothing on the books or the heap. */
  lemma CloseKeepsGood(ex: Exchange, claims: map<ClaimId, Claim>, p: Pubkey)
    requires Good(ex, claims, 0, 0)
    ensures var r := CloseAccount(ex, p);
            && (r.Ok? <==> p in ex.accounts && ex.accounts[p].position == Position(0, 0, 0, 0, 0, 0, 0, 0))
            && (r.Ok? ==>
                  && Good(r.value, claims, 0, 0) && (forall i :: i in claims ==> claims[i].owner != p)
                  && r.value == ex.(accounts := r.value.accounts) && r.value.accounts.Keys == ex.accounts.Keys - {p}
                  && forall q :: q in r.value.accounts ==> r.value.accounts[q] == ex.accounts[q])
  {
    if CloseAccount(ex, p).Ok? {
      GoodParts(ex, claims, 0, 0);
      hide Inv, BooksOk, Tally, Tagged, SeqsOk;
      CloseKeeps(Ledger(ex.market, ex.accounts, claims), p, 0, 0);
      CloseTags(ex.accounts, claims, p, ex.market.seqNum);
    }
  }

  lemma CloseTags(accounts: map<Pubkey, Account>, claims: map<ClaimId, Claim>, p: Pubkey, seqNum: int)
    requires Tagged(accounts, claims) && SeqsOk(accounts, seqNum) && forall i :: i in claims ==> claims[i].owner != p
    ensures Tagged(accounts - {p}, claims) && SeqsOk(accounts - {p}, seqNum)
  {
    var accounts' := accounts - {p};
    forall k | k in claims && k.OnBook?
      ensures TagOk(accounts', k, claims[k])
    {
      assert TagOk(accounts, k, claims[k]);
    }
    forall q, t | InUse(accounts', q, t)
      ensures InUse(accounts, q, t) && SlotSeqNum(accounts', q, t) == SlotSeqNum(accounts, q, t)
    {
    }
  }

  // ---------- closing the market ----------

  /** The vault totals alone decide: a market that counts as empty has empty books, no events, and owes nobody anything. */
  lemma EmptyMarketIsEmpty(ex: Exchange, claims: map<ClaimId, Claim>)
    requires Good(ex, claims, 0, 0)
    ensures ex.market.IsEmpty() <==> MayClose(ex)
    ensures MayClose(ex) <==> NothingOwed(Ledger(ex.market, ex.accounts, claims))
    ensures MayClose(ex) ==> forall p :: p in ex.accounts ==>
              var a := ex.accounts[p].position;
              a.quoteFree == 0 && a.baseFree == 0 && a.lockedMakerFees == 0 && a.referrerRebates == 0
  {
    GoodParts(ex, claims, 0, 0);
    EmptyMarketOwesNothing(Ledger(ex.market, ex.accounts, claims));
    hide Good, Inv;
    if claims == map[] {
      forall side, comp, key ensures key !in ex.orders.Book(side).Get(comp) {
        assert key in ex.orders.Book(side).Get(comp) ==> OnBook(side, comp, key) in claims;
      }
      forall slot ensures slot !in ex.orders.heap.pending {
        assert slot in ex.orders.heap.pending ==> InHeap(slot) in claims;
      }
      NoOrders(ex.orders);
    }
  }

  lemma NoOrders(o: Orders)
    requires BooksOk(o) && forall side, comp, key :: key !in o.Book(side).Get(comp)
    requires forall slot :: slot !in o.heap.pending
    ensures o.bids.IsEmpty() && o.asks.IsEmpty() && o.heap.order == []
  {
    assert o.Book(Bid).Get(Fixed) == map[] && o.Book(Bid).Get(OraclePegged) == map[];
    assert o.Book(Ask).Get(Fixed) == map[] && o.Book(Ask).Get(OraclePegged) == map[];
    if o.heap.order != [] { HeadIsIn(o.heap.order); }
  }
}
