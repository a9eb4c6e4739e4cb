/** Transactions, their canonical bytes and the identifier computed from them.
    A string is represented by its UTF-8 bytes. */
module Transactions {
  import opened Bytes

  type u16 = x: int | 0 <= x < 0x1_0000
  const U32_LIMIT: int := 0x1_0000_0000

  datatype TransactionType =
    | Transfer | CreditRequest | CreditSettlement | TokenMint | TokenBurn | ConfidentialTransfer

  datatype Currency = BRL | USD | EUR | BTC | ETH | USDC | NOVA | Custom(ticker: ByteString)

  datatype Amount = Amount(value: u64, currency: Currency)

  datatype Transaction = Transaction(
    id: ByteString,
    version: u16,
    txType: TransactionType,
    sender: ByteString,
    receiver: ByteString,
    amount: Amount,
    fee: u64,
    nonce: u64,
    timestamp: u64,
    payload: Option<ByteString>,
    senderPublicKey: Option<ByteString>,
    signature: Option<ByteString>,
    zkpProof: Option<ByteString>,
    proof: Option<ByteString>,
    amountCommitment: Option<ByteString>)

  // ---- Display forms ----

  /** The UTF-8 bytes of an ASCII literal. */
  function Ascii(s: string): (b: ByteString)
    ensures |b| == |s|
    ensures forall i :: 0 <= i < |s| ==> b[i] == s[i] as int % 256
  {
    seq<byte>(|s|, i requires 0 <= i < |s| => s[i] as int % 256)
  }

  function TypeName(t: TransactionType): ByteString {
    match t
    case Transfer => Ascii("Transfer")
    case CreditRequest => Ascii("CreditRequest")
    case CreditSettlement => Ascii("CreditSettlement")
    case TokenMint => Ascii("TokenMint")
    case TokenBurn => Ascii("TokenBurn")
    case ConfidentialTransfer => Ascii("ConfidentialTransfer")
  }

  function CurrencyName(c: Currency): ByteString {
    match c
    case BRL => Ascii("BRL")
    case USD => Ascii("USD")
    case EUR => Ascii("EUR")
    case BTC => Ascii("BTC")
    case ETH => Ascii("ETH")
    case USDC => Ascii("USDC")
    case NOVA => Ascii("NOVA")
    case Custom(ticker) => ticker
  }

  predicate NulFree(s: ByteString) { 0 !in s }

  lemma TypeNameNulFree(t: TransactionType)
    ensures NulFree(TypeName(t))
  {
    forall i | 0 <= i < |TypeName(t)|
      ensures TypeName(t)[i] != 0
    {
      match t
      case Transfer => LiteralNulFree("Transfer", i);
      case CreditRequest => LiteralNulFree("CreditRequest", i);
      case CreditSettlement => LiteralNulFree("CreditSettlement", i);
      case TokenMint => LiteralNulFree("TokenMint", i);
      case TokenBurn => LiteralNulFree("TokenBurn", i);
      case ConfidentialTransfer => LiteralNulFree("ConfidentialTransfer", i);
    }
  }

  lemma LiteralNulFree(s: string, i: nat)
    requires i < |s| && 'A' <= s[i] <= 'z'
    ensures Ascii(s)[i] != 0
  {}

  function TypeOfName(name: ByteString): Option<TransactionType> {
    if name == TypeName(Transfer) then Some(Transfer)
    else if name == TypeName(CreditRequest) then Some(CreditRequest)
    else if name == TypeName(CreditSettlement) then Some(CreditSettlement)
    else if name == TypeName(TokenMint) then Some(TokenMint)
    else if name == TypeName(TokenBurn) then Some(TokenBurn)
    else if name == TypeName(ConfidentialTransfer) then Some(ConfidentialTransfer)
    else None
  }

  lemma TypeNameRoundTrip(t: TransactionType)
    ensures TypeOfName(TypeName(t)) == Some(t)
  {
    assert |TypeName(Transfer)| == 8 && |TypeName(CreditRequest)| == 13;
    assert |TypeName(CreditSettlement)| == 16 && |TypeName(ConfidentialTransfer)| == 20;
    assert |TypeName(TokenMint)| == 9 && |TypeName(TokenBurn)| == 9;
    assert TypeName(TokenMint)[5] != TypeName(TokenBurn)[5];
  }

  // ---- Canonical bytes ----

  function CString(s: ByteString): ByteString { s + [0] }

  /** Length as a little-endian u32 (truncated like the source's cast), then the bytes. */
  function Blob(s: ByteString): ByteString { LittleEndian(|s| % U32_LIMIT, 4) + s }

  function Payload(p: Option<ByteString>): ByteString {
    if p.Some? then [1] + Blob(p.value) else [0]
  }

  function Tagged(tag: byte, p: Option<ByteString>): ByteString {
    if p.Some? then [tag] + Blob(p.value) else []
  }

  /** The canonical bytes followed by `rest`. */
  function SignableThen(t: Transaction, rest: ByteString): ByteString {
    LittleEndian(t.version, 2) +
    (CString(TypeName(t.txType)) +
     (CString(t.sender) +
      (CString(t.receiver) +
       (Le64(t.amount.value) +
        (CString(CurrencyName(t.amount.currency)) +
         (Le64(t.fee) +
          (Le64(t.nonce) +
           (Le64(t.timestamp) +
            (Payload(t.payload) + rest)))))))))
  }

  function Signable(t: Transaction): ByteString { SignableThen(t, []) }

  lemma Assoc(x: ByteString, y: ByteString, z: ByteString)
    ensures (x + y) + z == x + (y + z)
  {}

  /** The canonical bytes written out: integers little-endian, texts ended by a zero byte, the payload marked 1 with
      its length or 0; the id adds the proof marked 2 and the commitment marked 3. */
  lemma CanonicalLayout(t: Transaction)
    ensures Signable(t) ==
            LittleEndian(t.version, 2) + TypeName(t.txType) + [0] + t.sender + [0] + t.receiver + [0]
            + Le64(t.amount.value) + CurrencyName(t.amount.currency) + [0]
            + Le64(t.fee) + Le64(t.nonce) + Le64(t.timestamp)
            + (if t.payload.Some? then [1] + LittleEndian(|t.payload.value| % U32_LIMIT, 4) + t.payload.value else [0])
    ensures IdPreimage(t) ==
            Signable(t)
            + (if t.proof.Some? then [2] + LittleEndian(|t.proof.value| % U32_LIMIT, 4) + t.proof.value else [])
            + (if t.amountCommitment.Some?
               then [3] + LittleEndian(|t.amountCommitment.value| % U32_LIMIT, 4) + t.amountCommitment.value else [])
  {
    hide LittleEndian, TypeName, CurrencyName, Le64;
  }

  lemma SignableAppend(t: Transaction, rest: ByteString)
    ensures SignableThen(t, rest) == Signable(t) + rest
  {
    hide LittleEndian, CString, TypeName, CurrencyName, Le64, Payload;
    var p9 := Payload(t.payload);
    var p8 := Le64(t.timestamp) + (p9 + []);
    var p7 := Le64(t.nonce) + p8;
    var p6 := Le64(t.fee) + p7;
    var p5 := CString(CurrencyName(t.amount.currency)) + p6;
    var p4 := Le64(t.amount.value) + p5;
    var p3 := CString(t.receiver) + p4;
    var p2 := CString(t.sender) + p3;
    var p1 := CString(TypeName(t.txType)) + p2;
    assert (p9 + []) + rest == p9 + rest;
    Assoc(Le64(t.timestamp), p9 + [], rest);
    Assoc(Le64(t.nonce), p8, rest);
    Assoc(Le64(t.fee), p7, rest);
    Assoc(CString(CurrencyName(t.amount.currency)), p6, rest);
    Assoc(Le64(t.amount.value), p5, rest);
    Assoc(CString(t.receiver), p4, rest);
    Assoc(CString(t.sender), p3, rest);
    Assoc(CString(TypeName(t.txType)), p2, rest);
    Assoc(LittleEndian(t.version, 2), p1, rest);
  }

  /** The hashed string behind the transaction id. */
  function IdPreimage(t: Transaction): ByteString {
    Signable(t) + (Tagged(2, t.proof) + Tagged(3, t.amountCommitment))
  }

  // ---- Decoding ----

  /** What the canonical bytes cover; the currency by its displayed name. */
  datatype Fields = Fields(
    version: u16,
    txType: TransactionType,
    sender: ByteString,
    receiver: ByteString,
    value: u64,
    currencyName: ByteString,
    fee: u64,
    nonce: u64,
    timestamp: u64,
    payload: Option<ByteString>)

  function FieldsOf(t: Transaction): Fields {
    Fields(t.version, t.txType, t.sender, t.receiver, t.amount.value,
           CurrencyName(t.amount.currency), t.fee, t.nonce, t.timestamp, t.payload)
  }

  function TakeFixed(s: ByteString, n: nat): Option<(ByteString, ByteString)> {
    if n <= |s| then Some((s[..n], s[n..])) else None
  }

  function TakeCString(s: ByteString): Option<(ByteString, ByteString)> {
    if s == [] then None
    else if s[0] == 0 then Some(([], s[1..]))
    else
      var (head, rest) :- TakeCString(s[1..]);
      Some(([s[0]] + head, rest))
  }

  function TakeU64(s: ByteString): Option<(u64, ByteString)> {
    var (bytes, rest) :- TakeFixed(s, 8);
    var n := FromLittleEndian(bytes);
    if n < U64_LIMIT then Some((n, rest)) else None
  }

  function TakeBlob(s: ByteString): Option<(ByteString, ByteString)> {
    var (bytes, rest) :- TakeFixed(s, 4);
    TakeFixed(rest, FromLittleEndian(bytes))
  }

  function TakePayload(s: ByteString): Option<(Option<ByteString>, ByteString)> {
    if s == [] then None
    else if s[0] == 0 then Some((None, s[1..]))
    else
      var (blob, rest) :- TakeBlob(s[1..]);
      Some((Some(blob), rest))
  }

  function TakeTagged(tag: byte, s: ByteString): Option<(Option<ByteString>, ByteString)> {
    if s == [] || s[0] != tag then Some((None, s))
    else
      var (blob, rest) :- TakeBlob(s[1..]);
      Some((Some(blob), rest))
  }

  function DecodeSignable(s: ByteString): Option<(Fields, ByteString)> {
    var (versionBytes, s1) :- TakeFixed(s, 2);
    var version := FromLittleEndian(versionBytes);
    if version >= 0x1_0000 then None else
    var (typeName, s2) :- TakeCString(s1);
    var txType :- TypeOfName(typeName);
    var (sender, s3) :- TakeCString(s2);
    var (receiver, s4) :- TakeCString(s3);
    var (value, s5) :- TakeU64(s4);
    var (currencyName, s6) :- TakeCString(s5);
    var (fee, s7) :- TakeU64(s6);
    var (nonce, s8) :- TakeU64(s7);
    var (timestamp, s9) :- TakeU64(s8);
    var (payload, s10) :- TakePayload(s9);
    Some((Fields(version, txType, sender, receiver, value, currencyName, fee, nonce, timestamp, payload), s10))
  }

  function DecodeId(s: ByteString): Option<(Fields, Option<ByteString>, Option<ByteString>)> {
    var (fields, s1) :- DecodeSignable(s);
    var (proof, s2) :- TakeTagged(2, s1);
    var (commitment, s3) :- TakeTagged(3, s2);
    if s3 == [] then Some((fields, proof, commitment)) else None
  }

  // ---- Unique decodability ----

  predicate ShortBlob(p: Option<ByteString>) { p.Some? ==> |p.value| < U32_LIMIT }

  /** Strings without NUL and a payload below 2^32 bytes. */
  predicate Encodable(t: Transaction) {
    NulFree(t.sender) && NulFree(t.receiver) && NulFree(CurrencyName(t.amount.currency)) && ShortBlob(t.payload)
  }

  lemma TakeFixedOk(a: ByteString, rest: ByteString)
    ensures TakeFixed(a + rest, |a|) == Some((a, rest))
  {}

  lemma {:induction false} TakeCStringOk(a: ByteString, rest: ByteString)
    requires NulFree(a)
    ensures TakeCString(CString(a) + rest) == Some((a, rest))
  {
    var s := CString(a) + rest;
    if a == [] {
      assert s[1..] == rest;
    } else {
      assert s[1..] == CString(a[1..]) + rest;
      TakeCStringOk(a[1..], rest);
      assert a == [a[0]] + a[1..];
    }
  }

  lemma TakeU64Ok(n: u64, rest: ByteString)
    ensures TakeU64(Le64(n) + rest) == Some((n, rest))
  {
    hide LittleEndian, FromLittleEndian;
    TakeFixedOk(Le64(n), rest);
    U64Width(n);
    LittleEndianRoundTrip(n, 8);
  }

  lemma TakeBlobOk(b: ByteString, rest: ByteString)
    requires |b| < U32_LIMIT
    ensures TakeBlob(Blob(b) + rest) == Some((b, rest))
  {
    hide LittleEndian, FromLittleEndian;
    var len := LittleEndian(|b|, 4);
    Assoc(len, b, rest);
    TakeFixedOk(len, b + rest);
    assert Power256(4) == U32_LIMIT;
    LittleEndianRoundTrip(|b|, 4);
    TakeFixedOk(b, rest);
  }

  lemma TakePayloadOk(p: Option<ByteString>, rest: ByteString)
    requires ShortBlob(p)
    ensures TakePayload(Payload(p) + rest) == Some((p, rest))
  {
    hide Blob, TakeBlob;
    var s := Payload(p) + rest;
    if p.Some? {
      assert s[1..] == Blob(p.value) + rest;
      TakeBlobOk(p.value, rest);
    } else {
      assert s[1..] == rest;
    }
  }

  lemma TakeTaggedOk(tag: byte, p: Option<ByteString>, rest: ByteString)
    requires ShortBlob(p) && (rest == [] || rest[0] != tag)
    ensures TakeTagged(tag, Tagged(tag, p) + rest) == Some((p, rest))
  {
    hide Blob, TakeBlob;
    var s := Tagged(tag, p) + rest;
    if p.Some? {
      assert s[1..] == Blob(p.value) + rest;
      TakeBlobOk(p.value, rest);
    } else {
      assert s == rest;
    }
  }

  /** The decoder reads back every covered field and stops exactly at the end. */
  lemma SignableRoundTrip(t: Transaction, rest: ByteString)
    requires Encodable(t)
    ensures DecodeSignable(Signable(t) + rest) == Some((FieldsOf(t), rest))
  {
    hide LittleEndian, FromLittleEndian, CString, TypeName, CurrencyName, Le64, Payload, Ascii;
    hide TakeFixed, TakeCString, TakeU64, TakePayload, TypeOfName;
    SignableAppend(t, rest);
    var s9 := Payload(t.payload) + rest;
    var s8 := Le64(t.timestamp) + s9;
    var s7 := Le64(t.nonce) + s8;
    var s6 := Le64(t.fee) + s7;
    var s5 := CString(CurrencyName(t.amount.currency)) + s6;
    var s4 := Le64(t.amount.value) + s5;
    var s3 := CString(t.receiver) + s4;
    var s2 := CString(t.sender) + s3;
    var s1 := CString(TypeName(t.txType)) + s2;
    TakePayloadOk(t.payload, rest);
    TakeU64Ok(t.timestamp, s9);
    TakeU64Ok(t.nonce, s8);
    TakeU64Ok(t.fee, s7);
    TakeCStringOk(CurrencyName(t.amount.currency), s6);
    TakeU64Ok(t.amount.value, s5);
    TakeCStringOk(t.receiver, s4);
    TakeCStringOk(t.sender, s3);
    TypeNameNulFree(t.txType);
    TakeCStringOk(TypeName(t.txType), s2);
    TypeNameRoundTrip(t.txType);
    TakeFixedOk(LittleEndian(t.version, 2), s1);
    assert Power256(2) == 0x1_0000;
    LittleEndianRoundTrip(t.version, 2);
  }

  lemma IdPreimageRoundTrip(t: Transaction)
    requires Encodable(t) && ShortBlob(t.proof) && ShortBlob(t.amountCommitment)
    ensures DecodeId(IdPreimage(t)) == Some((FieldsOf(t), t.proof, t.amountCommitment))
  {
    hide Signable, DecodeSignable, Blob, TakeTagged;
    var c := Tagged(3, t.amountCommitment);
    SignableRoundTrip(t, Tagged(2, t.proof) + c);
    TakeTaggedOk(2, t.proof, c);
    assert c + [] == c;
    TakeTaggedOk(3, t.amountCommitment, []);
  }

  // ---- What the bytes determine ----

  /** No custom ticker with the name of a built-in currency. */
  ghost predicate PlainCurrency(c: Currency) {
    c.Custom? ==> forall b :: CurrencyName(b) == c.ticker ==> b.Custom?
  }

  /** Currencies without such tickers are told apart by their names. */
  lemma CurrencyNameInjective(a: Currency, b: Currency)
    requires PlainCurrency(a) && PlainCurrency(b)
    ensures CurrencyName(a) == CurrencyName(b) <==> a == b
  {
    var x, y := CurrencyName(a), CurrencyName(b);
    assert (!a.Custom? ==> |x| >= 3) && (!b.Custom? ==> |y| >= 3);
    assert !a.Custom? && !b.Custom? && x == y ==> x[0] == y[0] && x[1] == y[1];
  }

  /** The covered fields with the currency itself. */
  function Covered(t: Transaction): (Fields, Currency) { (FieldsOf(t), t.amount.currency) }

  /** Equal canonical bytes mean equal covered fields, and conversely; the currency by its
      name, or by itself where names tell currencies apart. */
  lemma SignableInjective(t: Transaction, u: Transaction)
    requires Encodable(t) && Encodable(u)
    ensures Signable(t) == Signable(u) <==> FieldsOf(t) == FieldsOf(u)
    ensures PlainCurrency(t.amount.currency) && PlainCurrency(u.amount.currency) ==>
              (Signable(t) == Signable(u) <==> Covered(t) == Covered(u))
  {
    hide DecodeSignable, LittleEndian, CString, TypeName, CurrencyName, Le64, Payload, PlainCurrency;
    SignableRoundTrip(t, []);
    SignableRoundTrip(u, []);
    assert Signable(t) + [] == Signable(t) && Signable(u) + [] == Signable(u);
    if PlainCurrency(t.amount.currency) && PlainCurrency(u.amount.currency) {
      CurrencyNameInjective(t.amount.currency, u.amount.currency);
    }
  }

  function WithCurrency(t: Transaction, c: Currency): Transaction { t.(amount := Amount(t.amount.value, c)) }

  /** The bytes determine the covered fields of a transaction among all encodable ones exactly
      when its currency is a custom ticker that no built-in currency has for a name. */
  lemma CurrencyDetermined(t: Transaction)
    requires Encodable(t)
    ensures (forall u :: Encodable(u) && Signable(u) == Signable(t) ==> Covered(u) == Covered(t)) <==>
              t.amount.currency.Custom? && PlainCurrency(t.amount.currency)
  {
    hide DecodeSignable, SignableThen;
    var c := t.amount.currency;
    if c.Custom? && PlainCurrency(c) {
      forall u | Encodable(u) && Signable(u) == Signable(t)
        ensures Covered(u) == Covered(t)
      {
        SignableInjective(u, t);
      }
    } else {
      var d := if c.Custom? then OtherName(c) else Custom(CurrencyName(c));
      SameNameSameBytes(t, d);
      assert Covered(WithCurrency(t, d)) != Covered(t);
    }
  }

  ghost function OtherName(c: Currency): (d: Currency)
    requires !PlainCurrency(c)
    ensures CurrencyName(d) == CurrencyName(c) && d != c
  {
    var d :| CurrencyName(d) == c.ticker && !d.Custom?;
    d
  }

  /** Any built-in currency and the custom ticker of its name give the same bytes. */
  lemma SameNameSameBytes(t: Transaction, d: Currency)
    requires CurrencyName(d) == CurrencyName(t.amount.currency)
    ensures Signable(WithCurrency(t, d)) == Signable(t)
    ensures Encodable(t) ==> Encodable(WithCurrency(t, d))
  {}

  // ---- When the bytes determine the addresses ----

  /** Which byte strings are text; a text cut at its NULs is text, and conversely, as in UTF-8. */
  type Text = ByteString -> bool

  ghost predicate TextContract(text: Text) {
    forall x: ByteString, y: ByteString :: text(CString(x) + y) <==> text(x) && text(y)
  }

  ghost predicate WellFormed(text: Text, t: Transaction) {
    text(t.sender) && text(t.receiver) && text(CurrencyName(t.amount.currency))
  }

  /** The bytes after version and type: two addresses, eight bytes, a currency name, the rest. */
  function Layout(s: ByteString, r: ByteString, v: ByteString, c: ByteString, tail: ByteString): ByteString {
    CString(s) + (CString(r) + (v + (CString(c) + tail)))
  }

  function Tail(fee: u64, nonce: u64, timestamp: u64, payload: ByteString): ByteString {
    Le64(fee) + (Le64(nonce) + (Le64(timestamp) + payload))
  }

  function Rest(t: Transaction): ByteString {
    Layout(t.sender, t.receiver, Le64(t.amount.value), CurrencyName(t.amount.currency),
           Tail(t.fee, t.nonce, t.timestamp, Payload(t.payload)))
  }

  /** Version and type are always determined. */
  lemma SameHead(t: Transaction, u: Transaction)
    ensures Signable(t) == Signable(u) <==> t.version == u.version && t.txType == u.txType && Rest(t) == Rest(u)
  {
    hide LittleEndian, FromLittleEndian, CString, TypeName, CurrencyName, Le64, Payload, TakeCString, TypeOfName,
         Layout;
    HeadRest(t);
    HeadRest(u);
    if Signable(t) == Signable(u) {
      var x, y := CString(TypeName(t.txType)) + Rest(t), CString(TypeName(u.txType)) + Rest(u);
      TakeFixedOk(LittleEndian(t.version, 2), x);
      TakeFixedOk(LittleEndian(u.version, 2), y);
      assert Power256(2) == 0x1_0000;
      LittleEndianRoundTrip(t.version, 2);
      LittleEndianRoundTrip(u.version, 2);
      TypeNameNulFree(t.txType);
      TypeNameNulFree(u.txType);
      TakeCStringOk(TypeName(t.txType), Rest(t));
      TakeCStringOk(TypeName(u.txType), Rest(u));
      TypeNameRoundTrip(t.txType);
      TypeNameRoundTrip(u.txType);
    }
  }

  lemma HeadRest(t: Transaction)
    ensures Signable(t) == LittleEndian(t.version, 2) + (CString(TypeName(t.txType)) + Rest(t))
  {
    hide LittleEndian, CString, TypeName, CurrencyName, Le64, Payload;
    assert Payload(t.payload) + [] == Payload(t.payload);
  }

  /** An encoded payload. */
  predicate IsPayload(s: ByteString) {
    s == [0] || (|s| >= 5 && s[0] == 1 && s[1..5] == LittleEndian((|s| - 5) % U32_LIMIT, 4))
  }

  lemma PayloadIs(p: Option<ByteString>)
    ensures IsPayload(Payload(p))
  {
    hide LittleEndian;
    if p.Some? {
      var s := Payload(p);
      assert s[1..5] == LittleEndian(|p.value| % U32_LIMIT, 4);
    }
  }

  lemma IsPayloadOf(s: ByteString) returns (p: Option<ByteString>)
    requires IsPayload(s)
    ensures Payload(p) == s
  {
    hide LittleEndian;
    if s == [0] {
      p := None;
    } else {
      p := Some(s[5..]);
      assert s == [s[0]] + (s[1..5] + s[5..]);
    }
  }

  /** NULs at `a`, `b` and `c` that cut the bytes into the fields of some transaction. */
  ghost predicate SplitAt(text: Text, x: ByteString, a: nat, b: nat, c: nat) {
    && a < b && b + 9 <= c && c + 25 < |x|
    && x[a] == 0 && x[b] == 0 && x[c] == 0
    && text(x[..a]) && text(x[a + 1..b]) && text(x[b + 9..c])
    && IsPayload(x[c + 25..])
  }

  lemma CStringSlices(s: ByteString, rest: ByteString)
    ensures var x := CString(s) + rest;
            |x| == |s| + 1 + |rest| && x[..|s|] == s && x[|s|] == 0 && x[|s| + 1..] == rest
  {}

  lemma LayoutSlices(s: ByteString, r: ByteString, v: ByteString, c: ByteString, tail: ByteString)
    requires |v| == 8
    ensures var x := Layout(s, r, v, c, tail);
            var i := |s|;
            var j := i + 1 + |r|;
            var k := j + 9 + |c|;
            && |x| == k + 1 + |tail| && x[i] == 0 && x[j] == 0 && x[k] == 0 && x[..i] == s && x[i + 1..j] == r
            && x[j + 1..j + 9] == v && x[j + 9..k] == c && x[k + 1..] == tail
  {
    hide CString;
    var x3 := CString(c) + tail;
    var x2 := CString(r) + (v + x3);
    CStringSlices(c, tail);
    CStringSlices(r, v + x3);
    CStringSlices(s, x2);
    var x := CString(s) + x2;
    var i := |s|;
    var j := i + 1 + |r|;
    assert x[i + 1..j] == x2[..|r|] && x[j] == x2[|r|];
    assert x[j + 1..] == x2[|r| + 1..];
    assert x[j + 1..j + 9] == (v + x3)[..8];
    assert x[j + 9..] == (v + x3)[8..];
    assert x[j + 9..j + 9 + |c|] == x3[..|c|] && x[j + 9 + |c|] == x3[|c|];
    assert x[j + 10 + |c|..] == x3[|c| + 1..];
  }

  lemma LayoutOf(x: ByteString, a: nat, b: nat, c: nat)
    requires a < b && b + 9 <= c < |x| && x[a] == 0 && x[b] == 0 && x[c] == 0
    ensures x == Layout(x[..a], x[a + 1..b], x[b + 1..b + 9], x[b + 9..c], x[c + 1..])
  {
    assert x[b + 9..] == CString(x[b + 9..c]) + x[c + 1..];
    assert x[b + 1..] == x[b + 1..b + 9] + x[b + 9..];
    assert x[a + 1..] == CString(x[a + 1..b]) + x[b + 1..];
    assert x == CString(x[..a]) + x[a + 1..];
  }

  lemma TailSlices(f: u64, n: u64, t: u64, payload: ByteString)
    ensures |Tail(f, n, t, payload)| == 24 + |payload| && Tail(f, n, t, payload)[24..] == payload
  {
    hide LittleEndian;
  }

  lemma U64Of(s: ByteString)
    requires |s| == 8
    ensures FromLittleEndian(s) < U64_LIMIT && Le64(FromLittleEndian(s)) == s
  {
    hide LittleEndian, FromLittleEndian;
    FromLittleEndianRoundTrip(s);
    assert Power256(8) == 256 * (256 * (256 * (256 * Power256(4))));
    assert Power256(4) == 256 * (256 * (256 * 256));
  }

  /** The transaction that a split of the bytes of `t` describes. */
  lemma SplitTransaction(text: Text, t: Transaction, a: nat, b: nat, c: nat) returns (u: Transaction)
    requires SplitAt(text, Rest(t), a, b, c)
    ensures WellFormed(text, u) && Signable(u) == Signable(t)
    ensures u.sender == Rest(t)[..a] && u.receiver == Rest(t)[a + 1..b]
  {
    hide LittleEndian, FromLittleEndian, CString, TypeName, Le64, Payload, Layout, IsPayload;
    var x := Rest(t);
    var v, tail := x[b + 1..b + 9], x[c + 1..];
    var p := IsPayloadOf(x[c + 25..]);
    U64Of(v);
    U64Of(tail[..8]);
    U64Of(tail[8..16]);
    U64Of(tail[16..24]);
    u := t.(sender := x[..a], receiver := x[a + 1..b], amount := Amount(FromLittleEndian(v), Custom(x[b + 9..c])),
            fee := FromLittleEndian(tail[..8]), nonce := FromLittleEndian(tail[8..16]),
            timestamp := FromLittleEndian(tail[16..24]), payload := p);
    assert tail[24..] == x[c + 25..];
    assert tail == tail[..8] + (tail[8..16] + (tail[16..24] + tail[24..]));
    LayoutOf(x, a, b, c);
    SameHead(t, u);
  }

  lemma OwnSplit(text: Text, t: Transaction)
    requires WellFormed(text, t)
    ensures SplitAt(text, Rest(t), |t.sender|, |t.sender| + 1 + |t.receiver|,
                    |t.sender| + |t.receiver| + 10 + |CurrencyName(t.amount.currency)|)
    ensures Rest(t)[..|t.sender|] == t.sender
    ensures Rest(t)[|t.sender| + 1..|t.sender| + 1 + |t.receiver|] == t.receiver
  {
    hide LittleEndian, CString, CurrencyName, Le64, Payload, Layout, Tail, IsPayload;
    var tail := Tail(t.fee, t.nonce, t.timestamp, Payload(t.payload));
    var k := |t.sender| + |t.receiver| + 10 + |CurrencyName(t.amount.currency)|;
    LayoutSlices(t.sender, t.receiver, Le64(t.amount.value), CurrencyName(t.amount.currency), tail);
    TailSlices(t.fee, t.nonce, t.timestamp, Payload(t.payload));
    PayloadIs(t.payload);
    assert Rest(t)[k + 25..] == Rest(t)[k + 1..][24..];
    PayloadSize(t.payload);
  }

  lemma PayloadSize(p: Option<ByteString>)
    ensures |Payload(p)| >= 1
  {}

  ghost predicate AddressesFixed(text: Text, t: Transaction) {
    forall u :: WellFormed(text, u) && Signable(u) == Signable(t) ==> u.sender == t.sender && u.receiver == t.receiver
  }

  /** Every cut of the bytes into fields is at the addresses of the transaction itself. */
  ghost predicate SplitsOnlyHere(text: Text, t: Transaction) {
    forall a: nat, b: nat, c: nat :: SplitAt(text, Rest(t), a, b, c) ==>
      a == |t.sender| && b == |t.sender| + 1 + |t.receiver|
  }

  lemma SameBytesSameAddresses(text: Text, t: Transaction, u: Transaction)
    requires WellFormed(text, t) && WellFormed(text, u) && Signable(u) == Signable(t) && SplitsOnlyHere(text, t)
    ensures u.sender == t.sender && u.receiver == t.receiver
  {
    hide SplitAt, Rest, Signable, WellFormed;
    SameHead(t, u);
    OwnSplit(text, t);
    OwnSplit(text, u);
  }

  /** The bytes determine the addresses among all transactions exactly when they split into
      fields at no other addresses. */
  lemma AddressesDetermined(text: Text, t: Transaction)
    requires WellFormed(text, t)
    ensures AddressesFixed(text, t) <==> SplitsOnlyHere(text, t)
  {
    hide SplitAt, Rest, Signable, WellFormed;
    if AddressesFixed(text, t) {
      forall a: nat, b: nat, c: nat | SplitAt(text, Rest(t), a, b, c)
        ensures a == |t.sender| && b == |t.sender| + 1 + |t.receiver|
      {
        SplitBounds(text, Rest(t), a, b, c);
        var u := SplitTransaction(text, t, a, b, c);
        assert |u.sender| == a && |u.receiver| == b - a - 1;
      }
    }
    if SplitsOnlyHere(text, t) {
      forall u | WellFormed(text, u) && Signable(u) == Signable(t)
        ensures u.sender == t.sender && u.receiver == t.receiver
      {
        SameBytesSameAddresses(text, t, u);
      }
    }
  }

  lemma SplitBounds(text: Text, x: ByteString, a: nat, b: nat, c: nat)
    requires SplitAt(text, x, a, b, c)
    ensures a < b && b + 9 <= c && c + 25 < |x|
  {}

  /** No NUL byte of the amount lets the receiver run on into it: a NUL at byte `m` of the
      amount would end a longer receiver, leave a text before it and, the eight bytes after it
      read as an amount, the rest of the currency name as another. */
  ghost predicate AmountKeepsReceiver(text: Text, t: Transaction) {
    var v, c := Le64(t.amount.value), CurrencyName(t.amount.currency);
    forall m :: 0 <= m < 8 && m < |c| && v[m] == 0 ==> !(text(v[..m]) && text(c[m + 1..]))
  }

  /** The exact condition for a transaction without payload and with a NUL-free currency name:
      its bytes determine its addresses among all transactions exactly when neither address
      contains a NUL and the amount's bytes keep the receiver. */
  lemma PlainAddressesDetermined(text: Text, t: Transaction)
    requires TextContract(text) && WellFormed(text, t)
    requires t.payload == None && NulFree(CurrencyName(t.amount.currency))
    ensures AddressesFixed(text, t) <==>
              NulFree(t.sender) && NulFree(t.receiver) && AmountKeepsReceiver(text, t)
  {
    hide SplitAt, Rest, AddressesFixed, NulFree, AmountKeepsReceiver, TextContract;
    AddressesDetermined(text, t);
    if NulFree(t.sender) && NulFree(t.receiver) {
      if AmountKeepsReceiver(text, t) {
        forall a: nat, b: nat, c: nat | SplitAt(text, Rest(t), a, b, c)
          ensures a == |t.sender| && b == |t.sender| + 1 + |t.receiver|
        {
          PlainSplit(text, t, a, b, c);
        }
      } else {
        LongerReceiver(text, t);
      }
    } else {
      NulSplits(text, t);
    }
  }

  /** The bytes of a transaction without payload, by position. */
  ghost predicate PlainView(t: Transaction, x: ByteString, a: nat, b: nat, c: nat) {
    && a < b && b + 9 <= c && |x| == c + 26 && x[a] == 0 && x[b] == 0 && x[c] == 0
    && t.sender == x[..a] && t.receiver == x[a + 1..b]
    && Le64(t.amount.value) == x[b + 1..b + 9] && CurrencyName(t.amount.currency) == x[b + 9..c]
  }

  lemma PlainBytes(text: Text, t: Transaction)
    requires t.payload == None
    ensures PlainView(t, Rest(t), |t.sender|, |t.sender| + 1 + |t.receiver|,
                      |t.sender| + |t.receiver| + 10 + |CurrencyName(t.amount.currency)|)
  {
    hide LittleEndian, CString, CurrencyName, Le64, Layout, Tail;
    var tail := Tail(t.fee, t.nonce, t.timestamp, Payload(t.payload));
    LayoutSlices(t.sender, t.receiver, Le64(t.amount.value), CurrencyName(t.amount.currency), tail);
    TailSlices(t.fee, t.nonce, t.timestamp, Payload(t.payload));
  }

  lemma LongerReceiver(text: Text, t: Transaction)
    requires TextContract(text) && WellFormed(text, t) && t.payload == None && !AmountKeepsReceiver(text, t)
    ensures !SplitsOnlyHere(text, t)
  {
    hide Rest, CurrencyName, IsPayload, Le64, TextContract, CString;
    var s, r, x := t.sender, t.receiver, Rest(t);
    var v, n := Le64(t.amount.value), CurrencyName(t.amount.currency);
    var a, b, c := |s|, |s| + 1 + |r|, |s| + |r| + 10 + |n|;
    PlainBytes(text, t);
    OwnSplit(text, t);
    var m :| 0 <= m < 8 && m < |n| && v[m] == 0 && text(v[..m]) && text(n[m + 1..]);
    Subslice(x, b + 1, b + 9, 0, m);
    Subslice(x, b + 9, c, m + 1, |n|);
    TextJoined(text, x, a + 1, b, b + 1 + m);
    assert SplitAt(text, x, a, b + 1 + m, c);
  }

  lemma Glue(x: ByteString, i: nat, j: nat, k: nat)
    requires i <= j < k <= |x|
    ensures x[i..k] == x[i..j] + [x[j]] + x[j + 1..k]
  {}

  lemma Subslice(x: ByteString, i: nat, j: nat, p: nat, q: nat)
    requires i <= j <= |x| && p <= q <= j - i
    ensures x[i..j][p..q] == x[i + p..i + q] && (q < j - i ==> x[i..j][q] == x[i + q])
    ensures x[i..j][..p] == x[i..i + p] && x[i..j][p..] == x[i + p..j]
  {
    var y := x[i..j];
    assert |y[p..q]| == |x[i + p..i + q]| && forall k :: 0 <= k < q - p ==> y[p..q][k] == x[i + p..i + q][k];
  }

  /** Where a cut can fall: the zero bytes are the three separators and those of the amount. */
  lemma PlainZeros(t: Transaction, x: ByteString, a: nat, b: nat, c: nat, i: nat)
    requires PlainView(t, x, a, b, c) && i < c && x[i] == 0
    requires NulFree(t.sender) && NulFree(t.receiver) && NulFree(CurrencyName(t.amount.currency))
    ensures i == a || i == b || b < i < b + 9
  {
    hide CurrencyName, Le64;
  }

  lemma PlainEnd(text: Text, t: Transaction, x: ByteString, a: nat, b: nat, c: nat, i: nat, j: nat, k: nat)
    requires PlainView(t, x, a, b, c) && SplitAt(text, x, i, j, k)
    requires NulFree(t.sender) && NulFree(t.receiver) && NulFree(CurrencyName(t.amount.currency))
    ensures k == c
  {
    hide PlainView, CurrencyName, LittleEndian;
    PlainParts(t, x, a, b, c);
    assert |x[k + 25..]| == c + 1 - k;
    if k < c {
      PlainZeros(t, x, a, b, c, k);
      PlainZeros(t, x, a, b, c, j);
      PlainZeros(t, x, a, b, c, i);
    }
  }

  lemma PlainParts(t: Transaction, x: ByteString, a: nat, b: nat, c: nat)
    requires PlainView(t, x, a, b, c)
    ensures a < b && b + 9 <= c && |x| == c + 26 && |CurrencyName(t.amount.currency)| == c - b - 9
  {
    hide CurrencyName;
  }

  lemma PlainSplit(text: Text, t: Transaction, i: nat, j: nat, k: nat)
    requires TextContract(text) && t.payload == None && SplitAt(text, Rest(t), i, j, k)
    requires NulFree(t.sender) && NulFree(t.receiver) && NulFree(CurrencyName(t.amount.currency))
    requires AmountKeepsReceiver(text, t)
    ensures i == |t.sender| && j == |t.sender| + 1 + |t.receiver|
  {
    hide Rest, CurrencyName, PlainView, Le64, SplitAt, AmountKeepsReceiver, TextContract, NulFree;
    var x, n := Rest(t), CurrencyName(t.amount.currency);
    var a, b, c := |t.sender|, |t.sender| + 1 + |t.receiver|, |t.sender| + |t.receiver| + 10 + |n|;
    PlainBytes(text, t);
    PlainParts(t, x, a, b, c);
    SplitBounds(text, x, i, j, k);
    SplitZeros(text, x, i, j, k);
    PlainEnd(text, t, x, a, b, c, i, j, k);
    PlainZeros(t, x, a, b, c, i);
    PlainZeros(t, x, a, b, c, j);
    if b < j {
      CutInAmount(text, t, x, a, b, c, i, j);
    }
  }

  lemma SplitZeros(text: Text, x: ByteString, a: nat, b: nat, c: nat)
    requires SplitAt(text, x, a, b, c)
    ensures a < b < c < |x| && x[a] == 0 && x[b] == 0 && x[c] == 0
  {}

  /** A cut inside the amount is what `AmountKeepsReceiver` rules out. */
  lemma CutInAmount(text: Text, t: Transaction, x: ByteString, a: nat, b: nat, c: nat, i: nat, j: nat)
    requires TextContract(text) && PlainView(t, x, a, b, c) && SplitAt(text, x, i, j, c)
    requires b < j < b + 9 && (i == a || i == b || b < i < j)
    ensures !AmountKeepsReceiver(text, t)
  {
    hide CurrencyName, Le64, TextContract, IsPayload, CString;
    var m := j - b - 1;
    assert x[0..i] == x[..i];
    if i == a {
      TextTail(text, x, a + 1, b, j);
    } else if b < i {
      TextTail(text, x, 0, a, i);
      TextTail(text, x, a + 1, b, i);
      TextJoined(text, x, b + 1, i, j);
    }
    CutKeeps(text, t, x, a, b, c, m);
  }

  lemma CutKeeps(text: Text, t: Transaction, x: ByteString, a: nat, b: nat, c: nat, m: nat)
    requires PlainView(t, x, a, b, c) && m < 8 && b + 10 + m <= c && x[b + 1 + m] == 0
    requires text(x[b + 1..b + 1 + m]) && text(x[b + 10 + m..c])
    ensures !AmountKeepsReceiver(text, t)
  {
    hide CurrencyName, Le64;
    Subslice(x, b + 1, b + 9, 0, m);
    Subslice(x, b + 9, c, m + 1, c - b - 9);
  }

  lemma TextTail(text: Text, x: ByteString, i: nat, j: nat, k: nat)
    requires TextContract(text) && i <= j < k <= |x| && x[j] == 0 && text(x[i..k])
    ensures text(x[j + 1..k]) && text(x[i..j])
  {
    hide TextContract;
    Glue(x, i, j, k);
    JoinText(text, x[i..j], x[j + 1..k]);
  }

  lemma TextJoined(text: Text, x: ByteString, i: nat, j: nat, k: nat)
    requires TextContract(text) && i <= j < k <= |x| && x[j] == 0 && text(x[i..j]) && text(x[j + 1..k])
    ensures text(x[i..k])
  {
    hide TextContract;
    Glue(x, i, j, k);
    JoinText(text, x[i..j], x[j + 1..k]);
  }

  /** With a NUL in an address the boundary between the addresses can move there. */
  lemma NulSplits(text: Text, t: Transaction)
    requires TextContract(text) && WellFormed(text, t) && !(NulFree(t.sender) && NulFree(t.receiver))
    ensures !SplitsOnlyHere(text, t)
  {
    hide Rest, CurrencyName, SplitAt, TextContract;
    var s, r, x := t.sender, t.receiver, Rest(t);
    var b, c := |s| + 1 + |r|, |s| + |r| + 10 + |CurrencyName(t.amount.currency)|;
    OwnSplit(text, t);
    SplitBounds(text, x, |s|, b, c);
    var a := NulPosition(s, r, x);
    MovedSplit(text, x, |s|, b, c, a);
  }

  lemma NulPosition(s: ByteString, r: ByteString, x: ByteString) returns (i: nat)
    requires !NulFree(s) || !NulFree(r)
    requires |s| + 1 + |r| < |x| && x[..|s|] == s && x[|s| + 1..|s| + 1 + |r|] == r
    ensures i < |s| + 1 + |r| && i != |s| && x[i] == 0
  {
    if k :| 0 <= k < |s| && s[k] == 0 {
      i := k;
    } else {
      var k :| 0 <= k < |r| && r[k] == 0;
      i := |s| + 1 + k;
    }
  }

  /** The first cut moved to any other NUL before the second is again a cut. */
  lemma MovedSplit(text: Text, x: ByteString, a: nat, b: nat, c: nat, i: nat)
    requires TextContract(text) && SplitAt(text, x, a, b, c) && i < b && x[i] == 0
    ensures SplitAt(text, x, i, b, c)
  {
    hide TextContract, IsPayload;
    assert x[0..a] == x[..a] && x[0..i] == x[..i];
    if i < a {
      TextTail(text, x, 0, i, a);
      TextJoined(text, x, i + 1, a, b);
    } else if a < i {
      TextTail(text, x, a + 1, i, b);
      TextJoined(text, x, 0, a, i);
    }
  }

  lemma JoinText(text: Text, x: ByteString, y: ByteString)
    requires TextContract(text)
    ensures text(CString(x) + y) <==> text(x) && text(y)
    ensures CString(x) + y == x + [0] + y
  {}

  // ---- Transaction id ----

  function HexDigit(n: nat): byte
    requires n < 16
  {
    if n < 10 then 48 + n else 87 + n
  }

  function Hex(s: ByteString): (r: ByteString)
    ensures |r| == 2 * |s|
  {
    if s == [] then [] else [HexDigit(s[0] / 16), HexDigit(s[0] % 16)] + Hex(s[1..])
  }

  const HEX_DIGITS: string := "0123456789abcdef"

  lemma HexDigitIs(n: nat)
    requires n < 16
    ensures HexDigit(n) == HEX_DIGITS[n] as int
  {}

  /** Two lower-case digits a byte, the high one first. */
  lemma {:induction false} HexDigits(s: ByteString, i: nat)
    requires i < |s|
    ensures Hex(s)[2 * i] == HEX_DIGITS[s[i] / 16] as int
    ensures Hex(s)[2 * i + 1] == HEX_DIGITS[s[i] % 16] as int
  {
    hide HexDigit;
    if i > 0 {
      HexDigits(s[1..], i - 1);
    } else {
      HexDigitIs(s[0] / 16);
      HexDigitIs(s[0] % 16);
    }
  }

  lemma {:induction false} HexInjective(a: ByteString, b: ByteString)
    requires Hex(a) == Hex(b)
    ensures a == b
  {
    if a != [] && b != [] {
      assert Hex(a)[0] == Hex(b)[0] && Hex(a)[1] == Hex(b)[1];
      assert Hex(a)[2..] == Hex(a[1..]) && Hex(b)[2..] == Hex(b[1..]);
      HexInjective(a[1..], b[1..]);
      assert a == [a[0]] + a[1..] && b == [b[0]] + b[1..];
    }
  }

  /** `hex(double_sha256(preimage))`. */
  function ComputeId(sha: Hash, t: Transaction): ByteString {
    Hex(sha(sha(IdPreimage(t))))
  }

  /** Transactions with the same id agree on every covered field, on the proof and on the
      commitment, or two of the four hashed strings collide. */
  lemma IdBinding(sha: Hash, t: Transaction, u: Transaction)
    requires Encodable(t) && ShortBlob(t.proof) && ShortBlob(t.amountCommitment)
    requires Encodable(u) && ShortBlob(u.proof) && ShortBlob(u.amountCommitment)
    requires ComputeId(sha, t) == ComputeId(sha, u)
    ensures (FieldsOf(t) == FieldsOf(u) && t.proof == u.proof && t.amountCommitment == u.amountCommitment)
         || Collision(sha, {IdPreimage(t), sha(IdPreimage(t)), IdPreimage(u), sha(IdPreimage(u))})
  {
    hide IdPreimage, DecodeId, Hex, Collision;
    var inputs := {IdPreimage(t), sha(IdPreimage(t)), IdPreimage(u), sha(IdPreimage(u))};
    HexInjective(sha(sha(IdPreimage(t))), sha(sha(IdPreimage(u))));
    if !Collision(sha, inputs) {
      NoCollision(sha, inputs, sha(IdPreimage(t)), sha(IdPreimage(u)));
      NoCollision(sha, inputs, IdPreimage(t), IdPreimage(u));
      IdPreimageRoundTrip(t);
      IdPreimageRoundTrip(u);
    }
  }

  // ---- Buffer-building methods ----

  method SignableBytes(t: Transaction) returns (buf: ByteString)
    ensures buf == Signable(t)
  {
    hide LittleEndian, TypeName, CurrencyName, Le64, Ascii, Blob;
    // What is still to be written after each field.
    ghost var p9 := Payload(t.payload) + [];
    ghost var p8 := Le64(t.timestamp) + p9;
    ghost var p7 := Le64(t.nonce) + p8;
    ghost var p6 := Le64(t.fee) + p7;
    ghost var p5 := CString(CurrencyName(t.amount.currency)) + p6;
    ghost var p4 := Le64(t.amount.value) + p5;
    ghost var p3 := CString(t.receiver) + p4;
    ghost var p2 := CString(t.sender) + p3;
    ghost var p1 := CString(TypeName(t.txType)) + p2;

    buf := LittleEndian(t.version, 2);
    assert buf + p1 == Signable(t);
    buf := AppendCString(buf, TypeName(t.txType), p2);
    buf := AppendCString(buf, t.sender, p3);
    buf := AppendCString(buf, t.receiver, p4);
    buf := AppendBytes(buf, Le64(t.amount.value), p5);
    buf := AppendCString(buf, CurrencyName(t.amount.currency), p6);
    buf := AppendBytes(buf, Le64(t.fee), p7);
    buf := AppendBytes(buf, Le64(t.nonce), p8);
    buf := AppendBytes(buf, Le64(t.timestamp), p9);
    if t.payload.Some? {
      buf := AppendBytes(buf, [1], Blob(t.payload.value));
      buf := AppendBlob(buf, t.payload.value);
    } else {
      buf := AppendBytes(buf, [0], []);
    }
  }

  method AppendBytes(before: ByteString, bytes: ByteString, ghost rest: ByteString) returns (buf: ByteString)
    ensures buf == before + bytes && buf + rest == before + (bytes + rest)
  {
    buf := before + bytes;
    Assoc(before, bytes, rest);
  }

  method AppendCString(before: ByteString, s: ByteString, ghost rest: ByteString) returns (buf: ByteString)
    ensures buf == before + CString(s) && buf + rest == before + (CString(s) + rest)
  {
    buf := before + s;
    buf := buf + [0];
    Assoc(before, s, [0]);
    Assoc(before, CString(s), rest);
  }

  method AppendBlob(before: ByteString, s: ByteString) returns (buf: ByteString)
    ensures buf == before + Blob(s)
  {
    hide LittleEndian;
    buf := before + LittleEndian(|s| % U32_LIMIT, 4);
    buf := buf + s;
    Assoc(before, LittleEndian(|s| % U32_LIMIT, 4), s);
  }

  method IdBytes(t: Transaction) returns (buf: ByteString)
    ensures buf == IdPreimage(t)
  {
    hide LittleEndian, SignableThen, Blob;
    buf := SignableBytes(t);
    if t.proof.Some? {
      buf := AppendBytes(buf, [2], Blob(t.proof.value));
      buf := AppendBlob(buf, t.proof.value);
    }
    assert buf == Signable(t) + Tagged(2, t.proof);
    ghost var before := buf;
    if t.amountCommitment.Some? {
      buf := AppendBytes(buf, [3], Blob(t.amountCommitment.value));
      buf := AppendBlob(buf, t.amountCommitment.value);
    }
    assert buf == before + Tagged(3, t.amountCommitment);
    Assoc(Signable(t), Tagged(2, t.proof), Tagged(3, t.amountCommitment));
  }
}
