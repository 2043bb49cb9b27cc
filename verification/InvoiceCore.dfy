/**
 Creating a fixed-address invoice: every invoice shares one receive address, so the allocator reserves
 a nonce that no active invoice of the same chain, address, token and base price uses.
 */
module InvoiceCore {
  import opened Results
  import opened AmountNonce
  import opened Invoices
  import opened Strings

  datatype Token = Token(symbol: string, address: string)
  datatype ChainSpec = ChainSpec(chain: string, tokens: seq<Token>, minConfirmations: nat)

  const BASE_USDC := Token("USDC", "0x833589fCD6eDb6E08f4c7C32D4f71b54bdA02913")
  const BASE_USDT := Token("USDT", "0xfde4C96c8593536E31F229EA8f37b2ADa2699bb2")
  const ETH_USDC := Token("USDC", "0xA0b86991c6218b36c1d19D4a2e9Eb0cE3606eB48")
  const POLYGON_USDC := Token("USDC", "0x3c499c542cEF5E3811e1192ce70d8cC03d5c3359")

  function LookupChain(alias: string): Option<ChainSpec> {
    var a := Lower(Trim(alias));
    if a == "base" then Some(ChainSpec("base", [BASE_USDC, BASE_USDT], 1))
    else if a == "ethereum" then Some(ChainSpec("eth", [ETH_USDC], 2))
    else if a == "polygon" then Some(ChainSpec("polygon", [POLYGON_USDC], 5))
    else None
  }

  function FindToken(tokens: seq<Token>, symbol: string): Option<Token> {
    if tokens == [] then None
    else if Lower(tokens[0].symbol) == symbol then Some(tokens[0])
    else FindToken(tokens[1..], symbol)
  }

  function LookupToken(spec: ChainSpec, asset: Option<string>): Option<Token> {
    FindToken(spec.tokens, Lower(Trim(if asset.Some? then asset.value else "usdc")))
  }

  predicate IsHexDigit(c: char) {
    '0' <= c <= '9' || 'a' <= c <= 'f' || 'A' <= c <= 'F'
  }

  predicate IsHexAddress(s: string) {
    |s| == 42 && s[..2] == "0x" && forall i | 2 <= i < 42 :: IsHexDigit(s[i])
  }

  // ---------------------------------------------------------------- active nonces

  /** Whether a listed invoice takes a nonce at this address, token and base price. */
  predicate Reserves(inv: Invoice, address: string, asset: string, base: int, now: int) {
    && Lower(inv.address) == Lower(address)
    && Upper(inv.asset) == Upper(asset)
    && inv.expiresAt >= now
    && inv.amount.Units?
    && BaseUnits(inv.amount.units) == base
    && inv.amount.units - base >= 1
  }

  function ActiveNonces(pending: seq<Invoice>, address: string, asset: string, base: int, now: int): set<int> {
    set inv | inv in pending && Reserves(inv, address, asset, base, now) :: inv.amount.units - base
  }

  method CollectActiveNonces(storage: Storage, chain: string, address: string, base: int, asset: string,
                             now: int, listedAt: int)
    returns (nonces: set<int>)
    ensures nonces == ActiveNonces(ListPending(storage.rows, chain, listedAt), address, asset, base, now)
    ensures forall n | n in nonces :: 1 <= n <= 9999
  {
    var pending := storage.ListPendingInvoices(chain, listedAt);
    nonces := {};
    for i := 0 to |pending|
      invariant nonces == ActiveNonces(pending[..i], address, asset, base, now)
    {
      var inv := pending[i];
      assert pending[..i + 1] == pending[..i] + [inv];
      if Lower(inv.address) != Lower(address) {
        continue;
      }
      if Upper(inv.asset) != Upper(asset) {
        continue;
      }
      if inv.expiresAt < now {
        continue;
      }
      if inv.amount.NotAnInteger? {
        continue;
      }
      var units := inv.amount.units;
      var invBase := BaseUnits(units);
      if invBase != base {
        continue;
      }
      var nonce := units - invBase;
      if nonce >= 1 {
        nonces := nonces + {nonce};
      }
    }
    assert pending[..|pending|] == pending;
  }

  // ---------------------------------------------------------------- creation

  datatype Params = Params(chainAlias: string, asset: Option<string>, fixedAddress: string, raw: nat, ttlMs: int)

  /** Clock readings in the order the code takes them, the random ring start and the fresh id. */
  datatype Env = Env(now: int, listedAt: int, issuedAt: int, start: Start, id: string, merchantExists: bool)

  datatype CreateError = UnknownChain | UnknownAsset | BadAddress | NoMerchant | PoolExhausted

  function Create(rows: seq<Invoice>, p: Params, env: Env): Result<Invoice, CreateError> {
    match LookupChain(p.chainAlias)
    case None => Err(UnknownChain)
    case Some(spec) =>
      match LookupToken(spec, p.asset)
      case None => Err(UnknownAsset)
      case Some(token) =>
        if !IsHexAddress(p.fixedAddress) then Err(BadAddress)
        else if !env.merchantExists then Err(NoMerchant)
        else
          var base := BaseUnits(p.raw);
          var active := ActiveNonces(ListPending(rows, spec.chain, env.listedAt), p.fixedAddress, token.symbol, base,
            env.now);
          match Allocate(active, env.start)
          case None => Err(PoolExhausted)
          case Some(nonce) =>
            Ok(Invoice(env.id, spec.chain, token.symbol, Units(base + nonce), p.fixedAddress, None, Pending,
                       env.issuedAt + p.ttlMs, None))
  }

  method CreateFixedEvmInvoice(storage: Storage, p: Params, env: Env) returns (r: Result<Invoice, CreateError>)
    modifies storage`rows
    ensures r == Create(old(storage.rows), p, env)
    ensures storage.rows == if r.Ok? then PutRow(old(storage.rows), r.value) else old(storage.rows)
  {
    hide LookupChain, LookupToken, ActiveNonces, Allocate, ListPending, IsHexAddress, NormalizeStart;
    var spec := LookupChain(p.chainAlias);
    if spec.None? {
      return Err(UnknownChain);
    }
    var token := LookupToken(spec.value, p.asset);
    if token.None? {
      return Err(UnknownAsset);
    }
    if !IsHexAddress(p.fixedAddress) {
      return Err(BadAddress);
    }
    if !env.merchantExists {
      return Err(NoMerchant);
    }
    var base := BaseUnits(p.raw);
    var active := CollectActiveNonces(storage, spec.value.chain, p.fixedAddress, base, token.value.symbol, env.now,
      env.listedAt);
    var nonce := AllocateNonce(active, env.start);
    if nonce.None? {
      return Err(PoolExhausted);
    }
    AllocateIsNearestFree(active, env.start);
    var amount := Encode(p.raw, nonce.value);
    var inv := Invoice(env.id, spec.value.chain, token.value.symbol, Units(amount.value), p.fixedAddress, None, Pending,
                       env.issuedAt + p.ttlMs, None);
    storage.CreateInvoice(inv);
    return Ok(inv);
  }

  // ---------------------------------------------------------------- what creation guarantees

  lemma ListedMember(rows: seq<Invoice>, chain: string, now: int)
    ensures forall r :: r in ListPending(rows, chain, now) <==> r in rows && IsListed(r, chain, now)
  {
    FilterMember(rows, inv => IsListed(inv, chain, now));
  }

  /** A fixed-mode invoice carries no derivation index. */
  predicate IsFixed(inv: Invoice) {
    inv.childIndex.None?
  }

  predicate Active(inv: Invoice, now: int) {
    inv.status == Pending && inv.expiresAt > now
  }

  /** Two invoices a payer could confuse: same chain, same address up to case, same token. */
  predicate SamePool(a: Invoice, b: Invoice) {
    a.chain == b.chain && Lower(a.address) == Lower(b.address) && Upper(a.asset) == Upper(b.asset)
  }

  /** Amount of a fixed-mode invoice: some base plus a nonce in 1..9999. */
  predicate Encoded(inv: Invoice) {
    inv.amount.Units? && 0 <= inv.amount.units && inv.amount.units % NONCE_MODULUS != 0
  }

  /** The new amount differs from that of every active invoice of the pool, however that one was priced. */
  lemma CreateIsDistinct(rows: seq<Invoice>, p: Params, env: Env)
    requires env.now <= env.listedAt && Create(rows, p, env).Ok?
    ensures var inv := Create(rows, p, env).value;
      && IsFixed(inv) && Encoded(inv) && inv.status == Pending && inv.id == env.id
      && forall r | r in rows && Active(r, env.listedAt) && Encoded(r) && SamePool(r, inv) :: r.amount != inv.amount
  {
    hide LookupChain, LookupToken, Allocate, ListPending, NormalizeStart, Steps;
    var spec := LookupChain(p.chainAlias).value;
    var token := LookupToken(spec, p.asset).value;
    var base := BaseUnits(p.raw);
    var pending := ListPending(rows, spec.chain, env.listedAt);
    var active := ActiveNonces(pending, p.fixedAddress, token.symbol, base, env.now);
    AllocateIsNearestFree(active, env.start);
    ListedMember(rows, spec.chain, env.listedAt);
    var inv := Create(rows, p, env).value;
    assert BaseUnits(base + (inv.amount.units - base)) == base;
    forall r | r in rows && Active(r, env.listedAt) && Encoded(r) && SamePool(r, inv)
      ensures r.amount != inv.amount
    {
      assert r in pending;
      if Reserves(r, p.fixedAddress, token.symbol, base, env.now) {
        assert r.amount.units - base in active;
      }
    }
  }

  // ---------------------------------------------------------------- what a request names

  /** The text is this name, up to case and white space around it. */
  predicate Says(text: string, name: string) {
    SameText(Trim(text), name)
  }

  lemma SaysIff(text: string, name: string)
    requires Lower(name) == name
    ensures Lower(Trim(text)) == name <==> Says(text, name)
  {
    hide Lower, Upper, Trim, SameText;
    FoldsIff(Trim(text), name);
  }

  lemma LowerNames()
    ensures Lower("base") == "base" && Lower("ethereum") == "ethereum" && Lower("polygon") == "polygon"
    ensures Lower("usdc") == "usdc" && Lower("usdt") == "usdt" && Lower("USDC") == "usdc" && Lower("USDT") == "usdt"
    ensures Trim("usdc") == "usdc"
  {
  }

  /** The three chains, with their tokens and depths. */
  lemma ChainNamed(alias: string)
    ensures var c := LookupChain(alias);
      && (Says(alias, "base") ==> c == Some(ChainSpec("base", [BASE_USDC, BASE_USDT], 1)))
      && (Says(alias, "ethereum") ==> c == Some(ChainSpec("eth", [ETH_USDC], 2)))
      && (Says(alias, "polygon") ==> c == Some(ChainSpec("polygon", [POLYGON_USDC], 5)))
      && (c.None? <==> !Says(alias, "base") && !Says(alias, "ethereum") && !Says(alias, "polygon"))
  {
    hide Lower, Trim, Says;
    LowerNames();
    SaysIff(alias, "base");
    SaysIff(alias, "ethereum");
    SaysIff(alias, "polygon");
  }

  /** The first listed token of that name, in lower case. */
  lemma {:induction false} FindTokenIff(tokens: seq<Token>, symbol: string)
    ensures var t := FindToken(tokens, symbol);
      && (t.Some? ==> exists i :: 0 <= i < |tokens| && tokens[i] == t.value && Lower(tokens[i].symbol) == symbol
                                  && forall j | 0 <= j < i :: Lower(tokens[j].symbol) != symbol)
      && (t.None? ==> forall j | 0 <= j < |tokens| :: Lower(tokens[j].symbol) != symbol)
  {
    hide Lower;
    if tokens != [] && Lower(tokens[0].symbol) != symbol {
      FindTokenIff(tokens[1..], symbol);
      if FindToken(tokens[1..], symbol).Some? {
        var i :| 0 <= i < |tokens[1..]| && tokens[1..][i] == FindToken(tokens, symbol).value
          && Lower(tokens[1..][i].symbol) == symbol && forall j | 0 <= j < i :: Lower(tokens[1..][j].symbol) != symbol;
        assert tokens[i + 1] == tokens[1..][i];
        assert forall j | 0 < j < i + 1 :: tokens[j] == tokens[1..][j - 1];
      }
    }
  }

  /** The token an asset names: USDC without one, USDT where the chain lists it, and none for an empty text. */
  lemma TokenNamed(alias: string, asset: Option<string>)
    requires LookupChain(alias).Some?
    ensures var spec := LookupChain(alias).value;
      var t := LookupToken(spec, asset);
      var usdc := asset.None? || Says(asset.value, "usdc");
      var usdt := asset.Some? && Says(asset.value, "usdt") && spec.chain == "base";
      && (t.Some? <==> usdc || usdt)
      && (t.Some? ==> t.value in spec.tokens && t.value.symbol == if usdt then "USDT" else "USDC")
  {
    hide Lower, Trim, Says, LookupChain, FindToken;
    LowerNames();
    ChainNamed(alias);
    if asset.Some? {
      SaysIff(asset.value, "usdc");
      SaysIff(asset.value, "usdt");
      NotBoth(asset.value);
    }
    var tokens := LookupChain(alias).value.tokens;
    FindTokenIff(tokens, Lower(Trim(if asset.Some? then asset.value else "usdc")));
    assert tokens[0].symbol == "USDC" && |tokens| <= 2 && (|tokens| == 2 ==> tokens[1].symbol == "USDT");
  }

  lemma NotBoth(text: string)
    ensures !(Says(text, "usdc") && Says(text, "usdt"))
  {
    hide Lower, Trim, Says;
    LowerNames();
    SaysIff(text, "usdc");
    SaysIff(text, "usdt");
  }

  /** Forty hexadecimal digits after `0x`. */
  lemma AddressIff(s: string)
    ensures IsHexAddress(s) <==>
      && |s| == 42 && s[0] == '0' && s[1] == 'x'
      && forall i | 2 <= i < 42 :: s[i] in "0123456789abcdefABCDEF"
  {
    hide IsHexDigit;
    forall i | 2 <= i < |s| ensures IsHexDigit(s[i]) <==> s[i] in "0123456789abcdefABCDEF" {
      HexDigitIff(s[i]);
    }
    assert |s| == 42 ==> (s[..2] == "0x" <==> s[0] == '0' && s[1] == 'x');
  }

  lemma HexDigitIff(c: char)
    ensures IsHexDigit(c) <==> c in "0123456789abcdefABCDEF"
  {
  }

  /**
   The invoice that is created: priced down to the cent, with the nonce in the last four decimals, for the chain
   and token the request names, at the merchant's address, and good for the requested time.
   */
  lemma CreatedInvoice(rows: seq<Invoice>, p: Params, env: Env)
    requires Create(rows, p, env).Ok?
    ensures var inv := Create(rows, p, env).value;
      && inv.amount.Units? && inv.amount.units / 10000 == p.raw / 10000 && 1 <= inv.amount.units % 10000 <= 9999
      && (inv.chain == "base" <==> Says(p.chainAlias, "base"))
      && (inv.chain == "eth" <==> Says(p.chainAlias, "ethereum"))
      && (inv.chain == "polygon" <==> Says(p.chainAlias, "polygon"))
      && (inv.asset == "USDC" <==> p.asset.None? || Says(p.asset.value, "usdc"))
      && (inv.asset == "USDT" <==> p.asset.Some? && Says(p.asset.value, "usdt"))
      && inv.id == env.id && inv.address == p.fixedAddress && inv.expiresAt == env.issuedAt + p.ttlMs
      && inv.status == Pending && inv.childIndex == None && inv.txHash == None
  {
    hide LookupChain, LookupToken, Says, ActiveNonces, ListPending, Allocate, NormalizeStart, Steps, IsHexAddress;
    ChainNamed(p.chainAlias);
    TokenNamed(p.chainAlias, p.asset);
    var spec := LookupChain(p.chainAlias).value;
    var token := LookupToken(spec, p.asset).value;
    var active := ActiveNonces(ListPending(rows, spec.chain, env.listedAt), p.fixedAddress, token.symbol,
                               BaseUnits(p.raw), env.now);
    AllocateIsNearestFree(active, env.start);
    EncodedDigits(p.raw, Allocate(active, env.start).value);
    if p.asset.Some? {
      NotBoth(p.asset.value);
    }
    NamesDiffer(p.chainAlias);
  }

  lemma NamesDiffer(alias: string)
    ensures !(Says(alias, "base") && Says(alias, "ethereum")) && !(Says(alias, "base") && Says(alias, "polygon"))
    ensures !(Says(alias, "ethereum") && Says(alias, "polygon"))
  {
    hide SameLetter;
  }

  /** Which request is refused, and why. */
  lemma RefusedIff(rows: seq<Invoice>, p: Params, env: Env)
    ensures var r := Create(rows, p, env);
      var known := Says(p.chainAlias, "base") || Says(p.chainAlias, "ethereum") || Says(p.chainAlias, "polygon");
      var listed := p.asset.None? || Says(p.asset.value, "usdc")
                    || (Says(p.asset.value, "usdt") && Says(p.chainAlias, "base"));
      && (r == Err(UnknownChain) <==> !known)
      && (r == Err(UnknownAsset) <==> known && !listed)
      && (r == Err(BadAddress) <==> known && listed && !IsHexAddress(p.fixedAddress))
      && (r == Err(NoMerchant) <==> known && listed && IsHexAddress(p.fixedAddress) && !env.merchantExists)
      && (r == Err(PoolExhausted) ==> known && listed && IsHexAddress(p.fixedAddress) && env.merchantExists)
  {
    hide LookupChain, LookupToken, Says, ActiveNonces, ListPending, Allocate, IsHexAddress, NormalizeStart;
    ChainNamed(p.chainAlias);
    NamesDiffer(p.chainAlias);
    if LookupChain(p.chainAlias).Some? {
      TokenNamed(p.chainAlias, p.asset);
    }
  }

  // ---------------------------------------------------------------- when the nonces are used up

  /**
   A pending invoice with time left, for the same chain, address and token up to case, and for the price of the
   request with nonce `n`.
   */
  predicate Holds(inv: Invoice, chain: string, symbol: string, p: Params, env: Env, n: int) {
    && inv.status == Pending && inv.chain == chain && inv.expiresAt > env.listedAt && inv.expiresAt >= env.now
    && SameText(inv.address, p.fixedAddress) && SameText(inv.asset, symbol)
    && inv.amount == Units(p.raw - p.raw % 10000 + n)
  }

  predicate Taken(rows: seq<Invoice>, chain: string, symbol: string, p: Params, env: Env, n: int) {
    exists inv :: inv in rows && Holds(inv, chain, symbol, p, env, n)
  }

  lemma HoldsIff(inv: Invoice, chain: string, symbol: string, p: Params, env: Env, n: int)
    requires 1 <= n <= 9999
    ensures Holds(inv, chain, symbol, p, env, n) <==>
      && IsListed(inv, chain, env.listedAt)
      && Reserves(inv, p.fixedAddress, symbol, BaseUnits(p.raw), env.now)
      && inv.amount.units - BaseUnits(p.raw) == n
  {
    hide Lower, Upper, SameText;
    FoldsIff(inv.address, p.fixedAddress);
    FoldsIff(inv.asset, symbol);
    EncodedDigits(p.raw, n);
  }

  /** A valid request is refused for lack of nonces exactly when all 9999 are reserved. */
  lemma CreateRefusedIff(rows: seq<Invoice>, p: Params, env: Env)
    requires LookupChain(p.chainAlias).Some? && LookupToken(LookupChain(p.chainAlias).value, p.asset).Some?
    requires IsHexAddress(p.fixedAddress) && env.merchantExists
    ensures var spec := LookupChain(p.chainAlias).value;
      var token := LookupToken(spec, p.asset).value;
      Create(rows, p, env).Err? <==> forall n | 1 <= n <= 9999 :: Taken(rows, spec.chain, token.symbol, p, env, n)
  {
    hide LookupChain, LookupToken, Allocate, NormalizeStart, Steps, Lower, Upper, IsHexAddress;
    var spec := LookupChain(p.chainAlias).value;
    var token := LookupToken(spec, p.asset).value;
    var base := BaseUnits(p.raw);
    var listed := ListPending(rows, spec.chain, env.listedAt);
    var active := ActiveNonces(listed, p.fixedAddress, token.symbol, base, env.now);
    AllocateIsNearestFree(active, env.start);
    ListedMember(rows, spec.chain, env.listedAt);
    forall n | 1 <= n <= 9999 ensures n in active <==> Taken(rows, spec.chain, token.symbol, p, env, n) {
      if n in active {
        var inv :| inv in listed && Reserves(inv, p.fixedAddress, token.symbol, base, env.now)
          && inv.amount.units - base == n;
        HoldsIff(inv, spec.chain, token.symbol, p, env, n);
      }
      if Taken(rows, spec.chain, token.symbol, p, env, n) {
        var inv :| inv in rows && Holds(inv, spec.chain, token.symbol, p, env, n);
        HoldsIff(inv, spec.chain, token.symbol, p, env, n);
      }
    }
  }
}
