/** Runs of the handlers themselves: the engine stays well-formed, and the market in it keeps the invariant. */
module HandlerRuns {
  import Markets
  import Arenas
  import opened Types
  import opened Ledgers
  import opened EventHeaps
  import opened Exchanges
  import opened ExchangeInvariants
  import opened Instructions
  import opened InstructionOrders
  import opened Engines
  import opened Handlers
  import opened Runs

  /** Hands an instruction to its handler. */
  method Handle(e: Engine, i: Instruction, ghost claims: map<ClaimId, Claim>) returns (error: Option<Error>)
    requires e.Valid() && Good(e.State(), claims, 0, 0)
    modifies e`market, e`accounts, e.heap, e.heap.nodes, e.bids, e.bids.nodes, e.asks, e.asks.nodes
    ensures e.Valid()
    ensures match Outcome(old(e.State()), i)
            case Ok(ex) => error == None && e.State() == ex
            case Err(err) => error == Some(err)
  {
    hide *;
    ghost var was := e.State();
    GoodCanTrade(was, claims, 0, 0);
    GoodIds(was, claims);
    OutcomeIs(was, i);
    e.MarketIs();
    error := None;
    match i {
      case PlaceOrderIx(env, wallet, o, limit) =>
        var r := PlaceOrderHandler(e, env, wallet, o, limit);
        error := if r.Err? then Some(r.error) else None;
      case PlaceTakeOrderIx(env, wallet, o, limit) =>
        error := PlaceTakeOrderHandler(e, env, wallet, o, limit);
      case CancelAllAndPlaceOrdersIx(env, wallet, cancel, orders, limit) =>
        if !env.hasAccount || env.owner !in e.accounts {
          BatchRefused(was, env, wallet, cancel, orders, limit);
          error := Some(AccountMissing);
        } else {
          var r := CancelAllAndPlaceHandler(e, env, wallet, cancel, orders, limit, claims);
          error := if r.Err? then Some(r.error) else None;
        }
      case EditOrderIx(env, wallet, id, expected, o, limit) =>
        var r := EditOrderHandler(e, env, wallet, id, expected, o, limit);
        error := if r.Err? then Some(r.error) else None;
      case CancelOrderIx(p, id) =>
        error := CancelOrderHandler(e, p, id);
      case CancelAllOrdersIx(p, filter, limit) =>
        if p !in e.accounts {
          error := Some(AccountMissing);
        } else {
          var r := CancelAllHandler(e, p, filter, limit);
          error := if r.Err? then Some(r.error) else None;
        }
      case ConsumeEventsIx(remaining, limit, slots) =>
        error := ConsumeEventsHandler(e, remaining, limit, slots);
      case SettleFundsIx(p, hasReferrer) =>
        var r := SettleFundsHandler(e, p, hasReferrer);
        error := if r.Err? then Some(r.error) else None;
      case DepositIx(p, base, quote) =>
        error := DepositHandler(e, p, base, quote);
      case RefillIx(p, base, quote) =>
        error := RefillHandler(e, p, base, quote);
      case SweepFeesIx =>
        var amount := SweepFeesHandler(e);
      case OpenAccountIx(p) =>
        error := OpenAccountHandler(e, p);
      case CloseAccountIx(p) =>
        error := CloseAccountHandler(e, p);
    }
  }

  /** An instruction as the runtime carries it out: its handler works on a copy, which takes the place of the market only if the
      handler succeeds. So on an error the market is as it was. */
  method Deliver(e: Engine, i: Instruction, ghost claims: map<ClaimId, Claim>)
      returns (e': Engine, error: Option<Error>, ghost claims': map<ClaimId, Claim>)
    requires e.Valid() && Good(e.State(), claims, 0, 0)
    ensures e'.Valid() && e'.State() == Execute(e.State(), i) && Good(e'.State(), claims', 0, 0)
    ensures error.None? <==> Outcome(e.State(), i).Ok?
  {
    hide *;
    claims' := ExecuteKeeps(e.State(), claims, i);
    ExecuteIs(e.State(), i);
    e' := new Engine.Copy(e);
    error := Handle(e', i, claims);
    if error.Some? {
      e' := e;
    }
  }

  lemma BatchRefused(ex: Exchange, env: Env, wallet: Wallet, cancel: bool, orders: seq<Order>, limit: nat)
    requires !env.hasAccount || env.owner !in ex.accounts
    ensures CancelAllAndPlaceOrders(ex, env, wallet, cancel, orders, limit) == Err(AccountMissing)
  {
  }

  lemma RunNext(ex: Exchange, instructions: seq<Instruction>, i: nat)
    requires i <= |instructions|
    ensures i == |instructions| ==> Run(ex, instructions[i..]) == ex
    ensures i < |instructions| ==>
              Run(ex, instructions[i..]) == Run(Execute(ex, instructions[i]), instructions[i + 1..])
    ensures instructions[0..] == instructions
  {
    hide Execute;
    if i < |instructions| {
      assert instructions[i..][0] == instructions[i] && instructions[i..][1..] == instructions[i + 1..];
    }
  }

  /** Instructions one after the other, whether they succeed or not: arena, heap and lists stay well-formed, the market is the
      one that the run of instructions leads to, and it keeps the invariant. */
  method DeliverAll(e: Engine, instructions: seq<Instruction>) returns (e': Engine)
    requires e.Valid() && Healthy(e.State())
    ensures e'.Valid() && e'.State() == Run(e.State(), instructions) && Healthy(e'.State())
  {
    hide *;
    ghost var claims := SomeClaims(e.State());
    RunNext(e.State(), instructions, 0);
    e' := e;
    for i := 0 to |instructions|
      invariant e'.Valid() && Good(e'.State(), claims, 0, 0)
      invariant Run(e'.State(), instructions[i..]) == Run(e.State(), instructions)
    {
      RunNext(e'.State(), instructions, i);
      var error;
      e', error, claims := Deliver(e', instructions[i], claims);
    }
    RunNext(e'.State(), instructions, |instructions|);
    IsHealthy(e'.State(), claims);
  }

  /** A new market, and then any instructions. */
  method StartAndDeliver(c: Markets.Config, bookCapacity: nat, heapCapacity: nat, instructions: seq<Instruction>)
      returns (e: Engine)
    requires c.Ok() && 1 <= bookCapacity <= 0xFFFF_FFFF && 1 <= heapCapacity < 0xFFFF
    ensures e.Valid() && e.State() == Run(NewMarket(c, bookCapacity, heapCapacity), instructions) && Healthy(e.State())
  {
    hide *;
    RoomIs();
    e := new Engine(c, bookCapacity, heapCapacity);
    NewMarketIsHealthy(c, bookCapacity, heapCapacity);
    e := DeliverAll(e, instructions);
  }

  lemma RoomIs()
    ensures NO_NODE == 0xFFFF && Arenas.U32_MAX == 0xFFFF_FFFF
  {
  }
}
