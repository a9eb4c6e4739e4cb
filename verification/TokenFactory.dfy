/** The token factory contract: token registration, minting, burning. */
module TokenFactory {
  import opened Bytes
  import opened Transactions

  type TokenId = ByteString

  datatype TokenType = Utility | Stablecoin | Governance | Reward

  datatype TokenInfo = TokenInfo(
    tokenId: TokenId, name: ByteString, symbol: ByteString, decimals: nat, tokenType: TokenType,
    issuer: ByteString, totalSupply: u64, createdAt: u64)

  /** `Panic` stands for an unwrap of a missing entry. */
  datatype TokenError =
    | TokenNotFound(token: TokenId)
    | InvalidSignature
    | SupplyOverflow(minting: u64)
    | InsufficientBalance(balance: u64, amount: u64)
    | DuplicateSymbol(taken: ByteString)
    | Panic

  type Holdings = map<ByteString, u64>

  datatype Factory = Factory(
    tokens: map<TokenId, TokenInfo>, balances: map<TokenId, Holdings>, symbols: map<ByteString, TokenId>)

  const EMPTY_FACTORY := Factory(map[], map[], map[])

  /** The registration request; `id` and `now` are the fresh UUID and the clock. */
  datatype Request = Request(
    name: ByteString, symbol: ByteString, decimals: nat, tokenType: TokenType, issuer: ByteString,
    id: TokenId, now: u64)

  /** Upper-casing of ticker symbols. */
  type Upper = ByteString -> ByteString

  datatype Outcome = Outcome(factory: Factory, error: Option<TokenError>)

  function Create(upper: Upper, f: Factory, r: Request): Outcome {
    var symbol := upper(r.symbol);
    if symbol in f.symbols then Outcome(f, Some(DuplicateSymbol(r.symbol)))
    else
      var info := TokenInfo(r.id, r.name, symbol, r.decimals, r.tokenType, r.issuer, 0, r.now);
      Outcome(Factory(f.tokens[r.id := info], f.balances[r.id := map[]], f.symbols[symbol := r.id]), None)
  }

  function Held(h: Holdings, who: ByteString): u64 { if who in h then h[who] else 0 }

  function SetHeld(h: Holdings, who: ByteString, amount: u64): Holdings { h[who := amount] }

  lemma SetHeldTwice(h: Holdings, who: ByteString, a: u64, b: u64)
    ensures SetHeld(SetHeld(h, who, a), who, b) == SetHeld(h, who, b)
  {}

  /** The supply is raised before the second overflow check, so a failure there would leave it raised. */
  function Mint(f: Factory, id: TokenId, to: ByteString, amount: u64, signature: ByteString): Outcome {
    if signature == [] then Outcome(f, Some(InvalidSignature))
    else if id !in f.tokens then Outcome(f, Some(TokenNotFound(id)))
    else
      var supply := f.tokens[id].totalSupply + amount;
      if supply >= U64_LIMIT then Outcome(f, Some(SupplyOverflow(amount)))
      else
        var raised := f.(tokens := f.tokens[id := f.tokens[id].(totalSupply := supply)]);
        if id !in f.balances then Outcome(raised, Some(Panic)) else
        var held := Held(f.balances[id], to);
        if held + amount >= U64_LIMIT then
          Outcome(raised.(balances := f.balances[id := SetHeld(f.balances[id], to, held)]),
                  Some(SupplyOverflow(amount)))
        else
          Outcome(raised.(balances := f.balances[id := SetHeld(f.balances[id], to, held + amount)]), None)
  }

  function SaturatingSub(a: u64, b: u64): u64 { if a >= b then a - b else 0 }

  function Burn(f: Factory, id: TokenId, holder: ByteString, amount: u64, signature: ByteString): Outcome {
    if signature == [] then Outcome(f, Some(InvalidSignature))
    else if id !in f.tokens || id !in f.balances then Outcome(f, Some(TokenNotFound(id)))
    else
      var held := f.balances[id];
      if holder !in held then Outcome(f, Some(InsufficientBalance(0, amount)))
      else if held[holder] < amount then Outcome(f, Some(InsufficientBalance(held[holder], amount)))
      else
        var info := f.tokens[id].(totalSupply := SaturatingSub(f.tokens[id].totalSupply, amount));
        Outcome(f.(tokens := f.tokens[id := info],
                   balances := f.balances[id := SetHeld(held, holder, held[holder] - amount)]), None)
  }

  function TotalSupply(f: Factory, id: TokenId): u64 { if id in f.tokens then f.tokens[id].totalSupply else 0 }

  function BalanceOf(f: Factory, id: TokenId, who: ByteString): u64 {
    if id in f.balances then Held(f.balances[id], who) else 0
  }

  // ---- The invariant ----

  ghost function Sum(h: Holdings): nat
    decreases |h|
  {
    if h == map[] then 0
    else
      var who :| who in h;
      assert |h - {who}| < |h|;
      h[who] + Sum(h - {who})
  }

  lemma {:induction false} SumRemove(h: Holdings, who: ByteString)
    requires who in h
    ensures Sum(h) == h[who] + Sum(h - {who})
    decreases |h|
  {
    var pick :| pick in h && Sum(h) == h[pick] + Sum(h - {pick});
    if pick != who {
      assert |h - {pick}| < |h|;
      SumRemove(h - {pick}, who);
      SumRemove(h - {who}, pick);
      assert h - {pick} - {who} == h - {who} - {pick};
    }
  }

  lemma SumUpdate(h: Holdings, who: ByteString, amount: u64)
    ensures Sum(h[who := amount]) == Sum(h) - Held(h, who) + amount
  {
    hide Sum;
    SumRemove(h[who := amount], who);
    if who in h {
      SumRemove(h, who);
      assert h[who := amount] - {who} == h - {who};
    } else {
      assert h[who := amount] - {who} == h;
    }
  }

  lemma HeldAtMostSum(h: Holdings, who: ByteString)
    ensures Held(h, who) <= Sum(h)
  {
    hide Sum;
    if who in h {
      SumRemove(h, who);
    }
  }

  /** Every supply is the sum of the holdings. */
  ghost predicate Backed(f: Factory) {
    && f.tokens.Keys == f.balances.Keys
    && forall id :: id in f.tokens ==> f.tokens[id].totalSupply == Sum(f.balances[id])
  }

  /** Symbols and tokens are in one-to-one correspondence. */
  ghost predicate OneToOne(f: Factory) {
    && (forall s :: s in f.symbols ==> f.symbols[s] in f.tokens && f.tokens[f.symbols[s]].symbol == s)
    && (forall id :: id in f.tokens ==>
          f.tokens[id].tokenId == id && f.tokens[id].symbol in f.symbols && f.symbols[f.tokens[id].symbol] == id)
  }

  ghost predicate Sound(f: Factory) { Backed(f) && OneToOne(f) }

  lemma CreateSound(upper: Upper, f: Factory, r: Request)
    requires Sound(f) && r.id !in f.tokens
    ensures var o := Create(upper, f, r);
            Sound(o.factory) && (o.error.Some? <==> upper(r.symbol) in f.symbols) && (o.error.Some? ==> o.factory == f)
    ensures var error := Create(upper, f, r).error; error.Some? ==> error.value == DuplicateSymbol(r.symbol)
  {
    assert Sum(map[]) == 0;
  }

  /** Against a backed factory `mint` fails only for a missing signature, an unknown token or
      a supply past 2^64 - 1, and then changes nothing: its second overflow check never fires. */
  lemma MintSound(f: Factory, id: TokenId, to: ByteString, amount: u64, signature: ByteString)
    requires Sound(f)
    ensures var o := Mint(f, id, to, amount, signature);
            && Sound(o.factory) && (o.error.Some? ==> o.factory == f)
            && (o.error.None? <==> signature != [] && id in f.tokens && TotalSupply(f, id) + amount < U64_LIMIT)
            && (o.error.Some? ==>
                  o.error.value == if signature == [] then InvalidSignature
                                   else if id !in f.tokens then TokenNotFound(id) else SupplyOverflow(amount))
  {
    hide Sum;
    if signature != [] && id in f.tokens {
      var h := f.balances[id];
      HeldAtMostSum(h, to);
      if TotalSupply(f, id) + amount < U64_LIMIT {
        SumUpdate(h, to, Held(h, to) + amount);
      }
    }
  }

  /** A burn that succeeds takes the whole amount off the supply: the subtraction never saturates. */
  lemma BurnSound(f: Factory, id: TokenId, holder: ByteString, amount: u64, signature: ByteString)
    requires Sound(f)
    ensures var o := Burn(f, id, holder, amount, signature);
            && Sound(o.factory) && (o.error.Some? ==> o.factory == f)
            && (o.error.None? <==>
                  signature != [] && id in f.tokens && holder in f.balances[id] && amount <= BalanceOf(f, id, holder))
            && (o.error.None? ==> TotalSupply(o.factory, id) == TotalSupply(f, id) - amount)
            && (o.error.Some? ==>
                  o.error.value == if signature == [] then InvalidSignature
                                   else if id !in f.tokens then TokenNotFound(id)
                                   else InsufficientBalance(BalanceOf(f, id, holder), amount))
  {
    hide Sum;
    if id in f.tokens {
      var h := f.balances[id];
      HeldAtMostSum(h, holder);
      if holder in h && amount <= h[holder] {
        SumUpdate(h, holder, h[holder] - amount);
      }
    }
  }

  // ---- Whole runs ----

  datatype Call =
    | CallCreate(request: Request)
    | CallMint(id: TokenId, to: ByteString, amount: u64, signature: ByteString)
    | CallBurn(id: TokenId, holder: ByteString, amount: u64, signature: ByteString)

  ghost predicate Fresh(f: Factory, c: Call) { c.CallCreate? ==> c.request.id !in f.tokens }

  function Perform(upper: Upper, f: Factory, c: Call): Outcome {
    match c
    case CallCreate(r) => Create(upper, f, r)
    case CallMint(id, to, amount, signature) => Mint(f, id, to, amount, signature)
    case CallBurn(id, holder, amount, signature) => Burn(f, id, holder, amount, signature)
  }

  lemma PerformSound(upper: Upper, f: Factory, c: Call)
    requires Sound(f) && Fresh(f, c)
    ensures Sound(Perform(upper, f, c).factory)
    ensures Perform(upper, f, c).error.Some? ==> Perform(upper, f, c).factory == f
  {
    hide Sound, Create, Mint, Burn;
    match c
    case CallCreate(r) => CreateSound(upper, f, r);
    case CallMint(id, to, amount, signature) => MintSound(f, id, to, amount, signature);
    case CallBurn(id, holder, amount, signature) => BurnSound(f, id, holder, amount, signature);
  }

  /** The factory after the calls, from the empty one. */
  function After(upper: Upper, calls: seq<Call>): Factory {
    if calls == [] then EMPTY_FACTORY
    else Perform(upper, After(upper, calls[..|calls| - 1]), calls[|calls| - 1]).factory
  }

  /** Every id a registration draws is new at that point. */
  ghost predicate FreshIds(upper: Upper, calls: seq<Call>) {
    calls == [] ||
    (FreshIds(upper, calls[..|calls| - 1]) && Fresh(After(upper, calls[..|calls| - 1]), calls[|calls| - 1]))
  }

  /** What a call adds to `who`'s balance of token `id` if it succeeds. */
  function Delta(c: Call, id: TokenId, who: ByteString): int {
    match c
    case CallCreate(_) => 0
    case CallMint(i, to, amount, _) => if i == id && to == who then amount else 0
    case CallBurn(i, holder, amount, _) => if i == id && holder == who then 0 - amount else 0
  }

  function SupplyDelta(c: Call, id: TokenId): int {
    match c
    case CallCreate(_) => 0
    case CallMint(i, _, amount, _) => if i == id then amount else 0
    case CallBurn(i, _, amount, _) => if i == id then 0 - amount else 0
  }

  predicate Succeeds(upper: Upper, f: Factory, c: Call) { Perform(upper, f, c).error.None? }

  lemma MintMoves(f: Factory, id: TokenId, to: ByteString, amount: u64, signature: ByteString, i: TokenId,
                  who: ByteString)
    requires Sound(f) && Mint(f, id, to, amount, signature).error.None?
    ensures var g := Mint(f, id, to, amount, signature).factory;
            && BalanceOf(g, i, who) == BalanceOf(f, i, who) + (if i == id && who == to then amount else 0)
            && TotalSupply(g, i) == TotalSupply(f, i) + (if i == id then amount else 0)
  {
    hide Sum, OneToOne;
  }

  lemma BurnMoves(f: Factory, id: TokenId, holder: ByteString, amount: u64, signature: ByteString, i: TokenId,
                  who: ByteString)
    requires Sound(f) && Burn(f, id, holder, amount, signature).error.None?
    ensures var g := Burn(f, id, holder, amount, signature).factory;
            && BalanceOf(g, i, who) == BalanceOf(f, i, who) - (if i == id && who == holder then amount else 0)
            && TotalSupply(g, i) == TotalSupply(f, i) - (if i == id then amount else 0)
  {
    hide Sum, OneToOne;
    HeldAtMostSum(f.balances[id], holder);
  }

  lemma CreateMoves(upper: Upper, f: Factory, r: Request, i: TokenId, who: ByteString)
    requires Sound(f) && r.id !in f.tokens
    ensures var g := Create(upper, f, r).factory;
            BalanceOf(g, i, who) == BalanceOf(f, i, who) && TotalSupply(g, i) == TotalSupply(f, i)
  {
    hide Sum, OneToOne;
  }

  /** A successful call moves exactly its amount, on its token and its account. */
  lemma PerformMoves(upper: Upper, f: Factory, c: Call, id: TokenId, who: ByteString)
    requires Sound(f) && Fresh(f, c) && Succeeds(upper, f, c)
    ensures var g := Perform(upper, f, c).factory;
            && BalanceOf(g, id, who) == BalanceOf(f, id, who) + Delta(c, id, who)
            && TotalSupply(g, id) == TotalSupply(f, id) + SupplyDelta(c, id)
  {
    hide Sound, Create, Mint, Burn, BalanceOf, TotalSupply;
    match c
    case CallCreate(r) => CreateMoves(upper, f, r, id, who);
    case CallMint(i, to, amount, signature) => MintMoves(f, i, to, amount, signature, id, who);
    case CallBurn(i, holder, amount, signature) => BurnMoves(f, i, holder, amount, signature, id, who);
  }

  /** What the successful calls of a run added to a balance, and to a supply. */
  function Net(upper: Upper, calls: seq<Call>, id: TokenId, who: ByteString): int {
    if calls == [] then 0
    else
      var rest, c := calls[..|calls| - 1], calls[|calls| - 1];
      Net(upper, rest, id, who) + (if Succeeds(upper, After(upper, rest), c) then Delta(c, id, who) else 0)
  }

  function NetSupply(upper: Upper, calls: seq<Call>, id: TokenId): int {
    if calls == [] then 0
    else
      var rest, c := calls[..|calls| - 1], calls[|calls| - 1];
      NetSupply(upper, rest, id) + (if Succeeds(upper, After(upper, rest), c) then SupplyDelta(c, id) else 0)
  }

  /** After every run with fresh ids each supply is the sum of the balances, symbols match
      tokens one to one, and every balance and supply is exactly what the successful mints and
      burns amount to. */
  lemma {:induction false} RunSound(upper: Upper, calls: seq<Call>, id: TokenId, who: ByteString)
    requires FreshIds(upper, calls)
    ensures Sound(After(upper, calls))
    ensures BalanceOf(After(upper, calls), id, who) == Net(upper, calls, id, who)
    ensures TotalSupply(After(upper, calls), id) == NetSupply(upper, calls, id)
  {
    hide Sum, Perform, Delta, SupplyDelta;
    if calls != [] {
      var rest, c := calls[..|calls| - 1], calls[|calls| - 1];
      RunSound(upper, rest, id, who);
      var f := After(upper, rest);
      PerformSound(upper, f, c);
      if Succeeds(upper, f, c) {
        PerformMoves(upper, f, c, id, who);
      }
    }
  }

  // ---- What is recorded of a token ----

  /** Call `k` registers token `id`. */
  ghost predicate Registers(upper: Upper, calls: seq<Call>, k: nat, id: TokenId)
    requires k < |calls|
  {
    calls[k].CallCreate? && calls[k].request.id == id && Succeeds(upper, After(upper, calls[..k]), calls[k])
  }

  /** The token carries what was asked for, the symbol in upper case. */
  ghost predicate Records(upper: Upper, info: TokenInfo, r: Request) {
    && info.tokenId == r.id && info.name == r.name && info.symbol == upper(r.symbol) && info.decimals == r.decimals
    && info.tokenType == r.tokenType && info.issuer == r.issuer && info.createdAt == r.now
  }

  /** A successful call leaves every known token as it was recorded, adds only the token it registers, and a
      new token has no supply. */
  lemma PerformRecords(upper: Upper, f: Factory, c: Call, id: TokenId, r: Request)
    requires Sound(f) && Fresh(f, c)
    ensures var g := Perform(upper, f, c).factory;
            var created := c.CallCreate? && c.request.id == id && Succeeds(upper, f, c);
            && (id in g.tokens <==> id in f.tokens || created)
            && (id in f.tokens ==> (Records(upper, g.tokens[id], r) <==> Records(upper, f.tokens[id], r)))
            && (created ==> Records(upper, g.tokens[id], c.request) && g.tokens[id].totalSupply == 0)
  {
    hide Sum, OneToOne;
  }

  /** After every run with fresh ids a token is known exactly if some call registered it, and it then carries
      that request's name, decimals, type, issuer and time and its symbol in upper case: minting and burning
      change none of them. */
  lemma {:induction false} RunRecords(upper: Upper, calls: seq<Call>, id: TokenId)
    requires FreshIds(upper, calls)
    ensures id in After(upper, calls).tokens <==> exists k :: 0 <= k < |calls| && Registers(upper, calls, k, id)
    ensures forall k :: 0 <= k < |calls| && Registers(upper, calls, k, id) ==>
              id in After(upper, calls).tokens && Records(upper, After(upper, calls).tokens[id], calls[k].request)
  {
    hide Perform, Records, Sound;
    if calls != [] {
      var n := |calls| - 1;
      var rest, c := calls[..n], calls[n];
      RunRecords(upper, rest, id);
      RunSound(upper, rest, id, []);
      forall k | 0 <= k < |calls|
        ensures k < n ==> (Registers(upper, calls, k, id) <==> Registers(upper, rest, k, id))
        ensures Registers(upper, calls, k, id) ==>
                  id in After(upper, calls).tokens && Records(upper, After(upper, calls).tokens[id], calls[k].request)
      {
        assert k < n ==> calls[..k] == rest[..k] && calls[k] == rest[k];
        if calls[k].CallCreate? {
          PerformRecords(upper, After(upper, rest), c, id, calls[k].request);
        }
      }
      PerformKnown(upper, After(upper, rest), c, id);
      assert Registers(upper, calls, n, id) <==>
             c.CallCreate? && c.request.id == id && Succeeds(upper, After(upper, rest), c);
    }
  }

  lemma PerformKnown(upper: Upper, f: Factory, c: Call, id: TokenId)
    requires Sound(f) && Fresh(f, c)
    ensures id in Perform(upper, f, c).factory.tokens <==>
            id in f.tokens || (c.CallCreate? && c.request.id == id && Succeeds(upper, f, c))
  {
    PerformRecords(upper, f, c, id, Request([], [], 0, Utility, [], [], 0));
  }

  // ---- The contract object ----

  datatype Created = Registered(id: TokenId) | Refused(error: TokenError)

  class TokenContract {
    const upper: Upper
    var tokens: map<TokenId, TokenInfo>
    var balances: map<TokenId, Holdings>
    var symbolIndex: map<ByteString, TokenId>

    ghost function View(): Factory
      reads this
    {
      Factory(tokens, balances, symbolIndex)
    }

    ghost predicate Valid()
      reads this
    {
      Sound(View())
    }

    constructor (upper: Upper)
      ensures this.upper == upper && View() == EMPTY_FACTORY && Valid()
    {
      this.upper := upper;
      this.tokens := map[];
      this.balances := map[];
      this.symbolIndex := map[];
    }

    method CreateToken(r: Request) returns (result: Created)
      requires Valid() && r.id !in tokens
      modifies this
      ensures Valid() && View() == Create(upper, old(View()), r).factory
      ensures match Create(upper, old(View()), r).error
              case None => result == Registered(r.id)
              case Some(e) => result == Refused(e)
    {
      hide Sound;
      CreateSound(upper, View(), r);
      var symbol := upper(r.symbol);
      if symbol in symbolIndex {
        return Refused(DuplicateSymbol(r.symbol));
      }
      tokens := tokens[r.id := TokenInfo(r.id, r.name, symbol, r.decimals, r.tokenType, r.issuer, 0, r.now)];
      balances := balances[r.id := map[]];
      symbolIndex := symbolIndex[symbol := r.id];
      return Registered(r.id);
    }

    method MintTokens(id: TokenId, to: ByteString, amount: u64, signature: ByteString)
      returns (error: Option<TokenError>)
      requires Valid()
      modifies this
      ensures Valid() && Outcome(View(), error) == Mint(old(View()), id, to, amount, signature)
    {
      hide Sound, SetHeld, Held, Sum;
      MintSound(View(), id, to, amount, signature);
      if signature == [] {
        return Some(InvalidSignature);
      }
      if id !in tokens {
        return Some(TokenNotFound(id));
      }
      var info := tokens[id];
      if info.totalSupply + amount >= U64_LIMIT {
        return Some(SupplyOverflow(amount));
      }
      tokens := tokens[id := info.(totalSupply := info.totalSupply + amount)];
      var held := Held(balances[id], to);
      balances := balances[id := SetHeld(balances[id], to, held)];
      if held + amount >= U64_LIMIT {
        return Some(SupplyOverflow(amount));
      }
      balances := balances[id := SetHeld(balances[id], to, held + amount)];
      SetHeldTwice(old(balances)[id], to, held, held + amount);
      assert balances == old(balances)[id := SetHeld(old(balances)[id], to, held + amount)];
      return None;
    }

    method BurnTokens(id: TokenId, holder: ByteString, amount: u64, signature: ByteString)
      returns (error: Option<TokenError>)
      requires Valid()
      modifies this
      ensures Valid() && Outcome(View(), error) == Burn(old(View()), id, holder, amount, signature)
    {
      hide Sound;
      BurnSound(View(), id, holder, amount, signature);
      if signature == [] {
        return Some(InvalidSignature);
      }
      if id !in tokens {
        return Some(TokenNotFound(id));
      }
      if id !in balances {
        return Some(TokenNotFound(id));
      }
      if holder !in balances[id] {
        return Some(InsufficientBalance(0, amount));
      }
      var held := balances[id][holder];
      if held < amount {
        return Some(InsufficientBalance(held, amount));
      }
      balances := balances[id := SetHeld(balances[id], holder, held - amount)];
      tokens := tokens[id := tokens[id].(totalSupply := SaturatingSub(tokens[id].totalSupply, amount))];
      return None;
    }
  }
}
