/** The message a confirmation token authenticates: each value behind its decimal length and a colon. */
module TokenMessage {
  import opened Options
  import opened Bytes

  const COLON: byte := 58

  predicate IsDigit(b: byte) {
    48 <= b <= 57
  }

  /** Decimal digits, as Go prints a non-negative integer. */
  function Decimal(n: nat): (digits: seq<byte>)
    ensures digits != [] && forall d :: d in digits ==> IsDigit(d)
  {
    if n < 10 then [48 + n] else Decimal(n / 10) + [48 + n % 10]
  }

  function DigitValue(b: byte): nat
    requires IsDigit(b)
  {
    b as int - 48
  }

  ghost function Field(value: seq<byte>): seq<byte> {
    Decimal(|value|) + [':' as int] + value
  }

  ghost function Message(values: seq<seq<byte>>): seq<byte> {
    if values == [] then [] else Message(values[..|values| - 1]) + Field(values[|values| - 1])
  }

  /** The keyed hash, the text encoding and the plain hash stay abstract. */
  datatype Crypto = Crypto(mac: (seq<byte>, seq<byte>) -> seq<byte>, encode: seq<byte> -> seq<byte>, hash: seq<byte> -> seq<byte>)

  /** Feeds the values one after the other into the keyed hash. */
  method Digest(crypto: Crypto, key: seq<byte>, values: seq<seq<byte>>) returns (sum: seq<byte>)
    ensures sum == crypto.mac(key, Message(values))
  {
    var written: seq<byte> := [];
    for k := 0 to |values|
      invariant written == Message(values[..k])
    {
      assert values[..k + 1][..k] == values[..k];
      written := written + Decimal(|values[k]|) + [COLON];
      written := written + values[k];
      assert written == Message(values[..k]) + Field(values[k]);
    }
    assert values[..|values|] == values;
    sum := crypto.mac(key, written);
  }

  // ---------- A parser that inverts the message ----------

  /** The number spelled by the leading digits, and what follows them. */
  function ReadNumber(s: seq<byte>, value: nat): (nat, seq<byte>) {
    if s == [] || !IsDigit(s[0]) then (value, s) else ReadNumber(s[1..], 10 * value + DigitValue(s[0]))
  }

  ghost function Parse(s: seq<byte>): Option<seq<seq<byte>>>
    decreases |s|
  {
    if s == [] then Some([])
    else
      var (length, rest) := ReadNumber(s, 0);
      if rest == [] || |rest| > |s| || rest[0] != COLON || length > |rest| - 1 then None
      else
        var others := Parse(rest[1 + length..]);
        if others.None? then None else Some([rest[1..1 + length]] + others.value)
  }

  ghost function Spelled(digits: seq<byte>, value: nat): nat
    requires forall d :: d in digits ==> IsDigit(d)
  {
    if digits == [] then value
    else 10 * Spelled(digits[..|digits| - 1], value) + DigitValue(digits[|digits| - 1])
  }

  lemma {:induction false} SpelledFirst(digits: seq<byte>, value: nat)
    requires digits != [] && forall d :: d in digits ==> IsDigit(d)
    ensures Spelled(digits, value) == Spelled(digits[1..], 10 * value + DigitValue(digits[0]))
  {
    if |digits| > 1 {
      var front := digits[..|digits| - 1];
      SpelledFirst(front, value);
      assert digits[1..][..|digits| - 2] == front[1..];
    }
  }

  lemma {:induction false} DigitsAreRead(digits: seq<byte>, tail: seq<byte>, value: nat)
    requires (forall d :: d in digits ==> IsDigit(d)) && (tail == [] || !IsDigit(tail[0]))
    ensures ReadNumber(digits + tail, value) == (Spelled(digits, value), tail)
  {
    if digits == [] {
      assert digits + tail == tail;
    } else {
      assert (digits + tail)[1..] == digits[1..] + tail;
      SpelledFirst(digits, value);
      DigitsAreRead(digits[1..], tail, 10 * value + DigitValue(digits[0]));
    }
  }

  lemma {:induction false} DecimalSpells(n: nat)
    ensures Spelled(Decimal(n), 0) == n
  {
    if n >= 10 {
      DecimalSpells(n / 10);
      assert Decimal(n)[..|Decimal(n)| - 1] == Decimal(n / 10);
    }
  }

  lemma FieldIsParsed(value: seq<byte>, tail: seq<byte>)
    ensures Parse(Field(value) + tail) == if Parse(tail).None? then None else Some([value] + Parse(tail).value)
  {
    var digits := Decimal(|value|);
    var rest := [COLON] + value + tail;
    var s := Field(value) + tail;
    assert s == digits + rest;
    DigitsAreRead(digits, rest, 0);
    DecimalSpells(|value|);
    assert rest[1..1 + |value|] == value && rest[1 + |value|..] == tail;
  }

  lemma {:induction false} MessageConcat(a: seq<seq<byte>>, b: seq<seq<byte>>)
    ensures Message(a + b) == Message(a) + Message(b)
  {
    if b == [] {
      assert a + b == a;
    } else {
      var front, last := b[..|b| - 1], b[|b| - 1];
      assert (a + b)[..|a + b| - 1] == a + front && (a + b)[|a + b| - 1] == last;
      MessageConcat(a, front);
      assert (Message(a) + Message(front)) + Field(last) == Message(a) + (Message(front) + Field(last));
    }
  }

  /** Every list of byte strings of any number and length is recovered from its message. */
  lemma {:induction false} MessageIsParsed(values: seq<seq<byte>>)
    ensures Parse(Message(values)) == Some(values)
  {
    if values != [] {
      assert values == [values[0]] + values[1..];
      MessageConcat([values[0]], values[1..]);
      assert Message([values[0]]) == Field(values[0]) by { assert values[..1][..0] == values[..0]; }
      MessageIsParsed(values[1..]);
      FieldIsParsed(values[0], Message(values[1..]));
    }
  }

  lemma MessageIsInjective(a: seq<seq<byte>>, b: seq<seq<byte>>)
    requires Message(a) == Message(b)
    ensures a == b
  {
    MessageIsParsed(a);
    MessageIsParsed(b);
  }

  // ---------- Tokens ----------

  const CONFIRMATION := Ascii("confirmation:v1")
  const CONFIRMATION_FORM := Ascii("confirmation-form:v1")

  datatype KeyRing = KeyRing(current: seq<byte>, keys: map<seq<byte>, seq<byte>>)

  datatype TokenMaterial = TokenMaterial(raw: seq<byte>, formNonce: seq<byte>, hash: seq<byte>, nonceHash: seq<byte>, keyId: seq<byte>)

  ghost function TokenValues(requestId: seq<byte>, appointmentId: seq<byte>, version: nat): seq<seq<byte>> {
    [Ascii("confirmation:v1"), requestId, appointmentId, Decimal(version)]
  }

  /** The material that belongs to a key and an appointment version. */
  ghost function Material(crypto: Crypto, keyId: seq<byte>, key: seq<byte>, requestId: seq<byte>, appointmentId: seq<byte>, version: nat): TokenMaterial {
    var raw := crypto.mac(key, Message(TokenValues(requestId, appointmentId, version)));
    var nonce := crypto.mac(key, Message([Ascii("confirmation-form:v1"), crypto.encode(raw)]));
    TokenMaterial(crypto.encode(raw), crypto.encode(nonce), crypto.hash(raw), crypto.hash(nonce), keyId)
  }

  method Derive(crypto: Crypto, ring: KeyRing, keyId: seq<byte>, requestId: seq<byte>, appointmentId: seq<byte>, version: int)
    returns (result: Option<TokenMaterial>)
    ensures result.None? <==> keyId !in ring.keys || requestId == [] || appointmentId == [] || version < 1
    ensures result.Some? ==> result.value == Material(crypto, keyId, ring.keys[keyId], requestId, appointmentId, version)
  {
    if keyId !in ring.keys || requestId == [] || appointmentId == [] || version < 1 {
      return None;
    }
    var key := ring.keys[keyId];
    var raw := Digest(crypto, key, [CONFIRMATION, requestId, appointmentId, Decimal(version)]);
    var nonce := Digest(crypto, key, [CONFIRMATION_FORM, crypto.encode(raw)]);
    result := Some(TokenMaterial(crypto.encode(raw), crypto.encode(nonce), crypto.hash(raw), crypto.hash(nonce), keyId));
  }

  method Issue(crypto: Crypto, ring: KeyRing, requestId: seq<byte>, appointmentId: seq<byte>, version: int)
    returns (result: Option<TokenMaterial>)
    ensures result.None? <==> ring.current !in ring.keys || requestId == [] || appointmentId == [] || version < 1
    ensures result.Some? ==> result.value == Material(crypto, ring.current, ring.keys[ring.current], requestId, appointmentId, version)
  {
    result := Derive(crypto, ring, ring.current, requestId, appointmentId, version);
  }

  /** A token issued earlier is derived again from its key as long as the ring keeps that key, whichever key is
      current by then. */
  method IssueThenReconstruct(crypto: Crypto, before: KeyRing, after: KeyRing, requestId: seq<byte>, appointmentId: seq<byte>, version: int)
    returns (issued: Option<TokenMaterial>, again: Option<TokenMaterial>)
    requires forall k :: k in before.keys ==> k in after.keys && after.keys[k] == before.keys[k]
    ensures issued.Some? ==> again == issued
  {
    issued := Issue(crypto, before, requestId, appointmentId, version);
    again := None;
    if issued.Some? {
      again := Derive(crypto, after, issued.value.keyId, requestId, appointmentId, version);
    }
  }

  /** Distinct appointments, requests or versions never share a message, and no message of a token is one of a form nonce. */
  lemma TokenMessagesAreApart(r: seq<byte>, a: seq<byte>, v: nat, r': seq<byte>, a': seq<byte>, v': nat, encoded: seq<byte>)
    ensures Message(TokenValues(r, a, v)) == Message(TokenValues(r', a', v')) <==> r == r' && a == a' && v == v'
    ensures Message(TokenValues(r, a, v)) != Message([Ascii("confirmation-form:v1"), encoded])
  {
    if Message(TokenValues(r, a, v)) == Message(TokenValues(r', a', v')) {
      MessageIsInjective(TokenValues(r, a, v), TokenValues(r', a', v'));
      assert TokenValues(r, a, v)[1] == TokenValues(r', a', v')[1] && TokenValues(r, a, v)[2] == TokenValues(r', a', v')[2];
      assert TokenValues(r, a, v)[3] == TokenValues(r', a', v')[3];
      DecimalSpells(v);
      DecimalSpells(v');
    }
    if Message(TokenValues(r, a, v)) == Message([Ascii("confirmation-form:v1"), encoded]) {
      MessageIsInjective(TokenValues(r, a, v), [Ascii("confirmation-form:v1"), encoded]);
    }
  }

  ghost predicate MacCollides(crypto: Crypto, key: seq<byte>, m: seq<byte>, n: seq<byte>) {
    m != n && crypto.mac(key, m) == crypto.mac(key, n)
  }

  ghost predicate EncodingCollides(crypto: Crypto, sum: seq<byte>, other: seq<byte>) {
    sum != other && crypto.encode(sum) == crypto.encode(other)
  }

  /** Two raw tokens are equal only for the same request, appointment and version, unless the keyed hash collides on
      their two messages or the encoding on the two hashes. */
  lemma RawTokenIdentifies(crypto: Crypto, keyId: seq<byte>, key: seq<byte>, r: seq<byte>, a: seq<byte>, v: nat, r': seq<byte>, a': seq<byte>, v': nat)
    ensures var m, n := Message(TokenValues(r, a, v)), Message(TokenValues(r', a', v'));
            Material(crypto, keyId, key, r, a, v).raw == Material(crypto, keyId, key, r', a', v').raw <==>
              || (r == r' && a == a' && v == v') || MacCollides(crypto, key, m, n)
              || EncodingCollides(crypto, crypto.mac(key, m), crypto.mac(key, n))
  {
    TokenMessagesAreApart(r, a, v, r', a', v', []);
  }
}
