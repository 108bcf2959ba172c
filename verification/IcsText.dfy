/** Text values of calendar feeds (section 3.3.11 of RFC 5545) and the octets of UTF-8. */
module IcsText {
  import opened Options
  import opened Bytes

  const LF: byte := 10
  const CR: byte := 13
  const SPACE: byte := 32
  const COMMA: byte := 44
  const SEMICOLON: byte := 59
  const BACKSLASH: byte := 92
  const SMALL_N: byte := 110
  const CAPITAL_N: byte := 78

  lemma OctetsOfCharacters()
    ensures LF == '\n' as int && CR == '\r' as int && SPACE == ' ' as int && COMMA == ',' as int && SEMICOLON == ';' as int
    ensures BACKSLASH == '\\' as int && SMALL_N == 'n' as int && CAPITAL_N == 'N' as int
  {
  }

  /** Go's `strings.ReplaceAll`: non-overlapping occurrences from the left. */
  function ReplaceAll(s: seq<byte>, what: seq<byte>, into: seq<byte>): seq<byte>
    requires what != []
    decreases |s|
  {
    if |s| < |what| then s
    else if s[..|what|] == what then into + ReplaceAll(s[|what|..], what, into)
    else [s[0]] + ReplaceAll(s[1..], what, into)
  }

  function EscapeText(value: seq<byte>): seq<byte> {
    var v1 := ReplaceAll(value, [BACKSLASH], [BACKSLASH, BACKSLASH]);
    var v2 := ReplaceAll(v1, [CR, LF], [LF]);
    var v3 := ReplaceAll(v2, [CR], [LF]);
    var v4 := ReplaceAll(v3, [LF], [BACKSLASH, SMALL_N]);
    var v5 := ReplaceAll(v4, [SEMICOLON], [BACKSLASH, SEMICOLON]);
    ReplaceAll(v5, [COMMA], [BACKSLASH, COMMA])
  }

  // ---------- What escaping means ----------

  /** Every line break becomes a single line feed. */
  ghost function Normalise(s: seq<byte>): seq<byte>
    decreases |s|
  {
    if s == [] then []
    else if |s| >= 2 && s[0] == CR && s[1] == LF then [LF] + Normalise(s[2..])
    else [if s[0] == CR then LF else s[0]] + Normalise(s[1..])
  }

  ghost function EscapeOne(b: byte): (r: seq<byte>)
    ensures r != []
  {
    if b == BACKSLASH then [BACKSLASH, BACKSLASH]
    else if b == LF then [BACKSLASH, SMALL_N]
    else if b == SEMICOLON then [BACKSLASH, SEMICOLON]
    else if b == COMMA then [BACKSLASH, COMMA]
    else [b]
  }

  ghost function FlatMap(s: seq<byte>, f: byte -> seq<byte>): seq<byte> {
    if s == [] then [] else f(s[0]) + FlatMap(s[1..], f)
  }

  /** Reads a text value back; None where an unescaped separator, a line break or an unknown escape stands. */
  ghost function Unescape(s: seq<byte>): Option<seq<byte>>
    decreases |s|
  {
    if s == [] then Some([])
    else if s[0] == BACKSLASH then
      if |s| < 2 then None
      else
        var rest := Unescape(s[2..]);
        if rest.None? then None
        else if s[1] == BACKSLASH || s[1] == SEMICOLON || s[1] == COMMA then Some([s[1]] + rest.value)
        else if s[1] == SMALL_N || s[1] == CAPITAL_N then Some([LF] + rest.value)
        else None
    else if s[0] == SEMICOLON || s[0] == COMMA || s[0] == CR || s[0] == LF then None
    else
      var rest := Unescape(s[1..]);
      if rest.None? then None else Some([s[0]] + rest.value)
  }

  ghost function Substitute(what: byte, into: seq<byte>): byte -> seq<byte> {
    (b: byte) => if b == what then into else [b]
  }

  lemma {:induction false} ReplaceOctet(s: seq<byte>, what: byte, into: seq<byte>)
    ensures ReplaceAll(s, [what], into) == FlatMap(s, Substitute(what, into))
  {
    if s != [] {
      assert s[..1] == [s[0]];
      ReplaceOctet(s[1..], what, into);
    }
  }

  lemma {:induction false} FlatMapConcat(a: seq<byte>, b: seq<byte>, f: byte -> seq<byte>)
    ensures FlatMap(a + b, f) == FlatMap(a, f) + FlatMap(b, f)
  {
    if a == [] {
      assert a + b == b;
    } else {
      assert (a + b)[1..] == a[1..] + b;
      FlatMapConcat(a[1..], b, f);
    }
  }

  /** Both steps from left to right: replacing pairs and then single carriage returns normalises line breaks. */
  lemma {:induction false} BreaksNormalise(s: seq<byte>)
    ensures FlatMap(ReplaceAll(s, [CR, LF], [LF]), Substitute(CR, [LF])) == Normalise(s)
    decreases |s|
  {
    if |s| >= 2 && s[..2] == [CR, LF] {
      BreaksNormalise(s[2..]);
      FlatMapConcat([LF], ReplaceAll(s[2..], [CR, LF], [LF]), Substitute(CR, [LF]));
      assert s[0] == CR && s[1] == LF;
    } else if s != [] {
      assert |s| >= 2 ==> s[..2] == [s[0], s[1]];
      if |s| == 1 { assert s[1..] == []; } else { BreaksNormalise(s[1..]); }
    }
  }

  lemma NormaliseOctet(b: byte, rest: seq<byte>)
    requires b == CR ==> rest == [] || rest[0] != LF
    ensures Normalise([b] + rest) == [if b == CR then LF else b] + Normalise(rest)
  {
    assert ([b] + rest)[1..] == rest;
  }

  lemma NormalisePair(rest: seq<byte>)
    ensures Normalise([CR, LF] + rest) == [LF] + Normalise(rest)
  {
    assert ([CR, LF] + rest)[2..] == rest;
  }

  lemma NormaliseBackslashes(tail: seq<byte>)
    ensures Normalise([BACKSLASH, BACKSLASH] + tail) == [BACKSLASH, BACKSLASH] + Normalise(tail)
  {
    NormaliseOctet(BACKSLASH, tail);
    NormaliseOctet(BACKSLASH, [BACKSLASH] + tail);
    assert [BACKSLASH, BACKSLASH] + tail == [BACKSLASH] + ([BACKSLASH] + tail);
  }

  lemma Singleton(b: byte, f: byte -> seq<byte>)
    ensures FlatMap([b], f) == f(b)
  {
    assert [b][1..] == [];
  }

  lemma DoubleFirst(b: byte, rest: seq<byte>, f: byte -> seq<byte>)
    requires f == Substitute(BACKSLASH, [BACKSLASH, BACKSLASH]) && (b == CR ==> rest == [] || rest[0] != LF)
    requires Normalise(FlatMap(rest, f)) == FlatMap(Normalise(rest), f)
    ensures Normalise(f(b) + FlatMap(rest, f)) == FlatMap(Normalise([b] + rest), f)
  {
    var tail := FlatMap(rest, f);
    NormaliseOctet(b, rest);
    var first := if b == CR then LF else b;
    FlatMapConcat([first], Normalise(rest), f);
    Singleton(first, f);
    if b == BACKSLASH {
      NormaliseBackslashes(tail);
    } else {
      assert tail != [] ==> tail[0] == f(rest[0])[0];
      NormaliseOctet(b, tail);
    }
  }

  lemma PairMap(a: byte, b: byte, f: byte -> seq<byte>)
    ensures FlatMap([a, b], f) == f(a) + f(b)
  {
    assert [a, b][1..] == [b];
    Singleton(b, f);
  }

  /** Doubling backslashes does not touch line breaks. */
  lemma {:induction false} DoublingKeepsBreaks(s: seq<byte>)
    ensures Normalise(FlatMap(s, Substitute(BACKSLASH, [BACKSLASH, BACKSLASH]))) ==
            FlatMap(Normalise(s), Substitute(BACKSLASH, [BACKSLASH, BACKSLASH]))
    decreases |s|
  {
    var f := Substitute(BACKSLASH, [BACKSLASH, BACKSLASH]);
    if |s| >= 2 && s[0] == CR && s[1] == LF {
      DoublingKeepsBreaks(s[2..]);
      assert s == [CR, LF] + s[2..];
      FlatMapConcat([CR, LF], s[2..], f);
      PairMap(CR, LF, f);
      NormalisePair(FlatMap(s[2..], f));
      FlatMapConcat([LF], Normalise(s[2..]), f);
      Singleton(LF, f);
    } else if s != [] {
      DoublingKeepsBreaks(s[1..]);
      DoubleFirst(s[0], s[1..], f);
      assert s == [s[0]] + s[1..];
    }
  }

  lemma OneOctetComposes(b: byte, f: byte -> seq<byte>, g: byte -> seq<byte>, h: byte -> seq<byte>, k: byte -> seq<byte>)
    requires f == Substitute(BACKSLASH, [BACKSLASH, BACKSLASH]) && g == Substitute(LF, [BACKSLASH, SMALL_N])
    requires h == Substitute(SEMICOLON, [BACKSLASH, SEMICOLON]) && k == Substitute(COMMA, [BACKSLASH, COMMA])
    ensures FlatMap(FlatMap(FlatMap(f(b), g), h), k) == EscapeOne(b)
  {
    Singleton(b, g);
    Singleton(b, h);
    Singleton(b, k);
    PairMap(BACKSLASH, if b == LF then SMALL_N else b, g);
    PairMap(BACKSLASH, if b == LF then SMALL_N else b, h);
    PairMap(BACKSLASH, if b == LF then SMALL_N else b, k);
  }

  /** The three remaining replacements act octet by octet. */
  lemma {:induction false} EscapesCompose(s: seq<byte>)
    ensures FlatMap(FlatMap(FlatMap(FlatMap(s, Substitute(BACKSLASH, [BACKSLASH, BACKSLASH])), Substitute(LF, [BACKSLASH, SMALL_N])),
              Substitute(SEMICOLON, [BACKSLASH, SEMICOLON])), Substitute(COMMA, [BACKSLASH, COMMA])) == FlatMap(s, EscapeOne)
  {
    if s != [] {
      var f, g := Substitute(BACKSLASH, [BACKSLASH, BACKSLASH]), Substitute(LF, [BACKSLASH, SMALL_N]);
      var h, k := Substitute(SEMICOLON, [BACKSLASH, SEMICOLON]), Substitute(COMMA, [BACKSLASH, COMMA]);
      var t := s[1..];
      EscapesCompose(t);
      FlatMapConcat(f(s[0]), FlatMap(t, f), g);
      FlatMapConcat(FlatMap(f(s[0]), g), FlatMap(FlatMap(t, f), g), h);
      FlatMapConcat(FlatMap(FlatMap(f(s[0]), g), h), FlatMap(FlatMap(FlatMap(t, f), g), h), k);
      OneOctetComposes(s[0], f, g, h, k);
    }
  }

  /** Escaping normalises the line breaks and then escapes each octet by itself. */
  lemma EscapeTextMeaning(value: seq<byte>)
    ensures EscapeText(value) == FlatMap(Normalise(value), EscapeOne)
  {
    var v1 := ReplaceAll(value, [BACKSLASH], [BACKSLASH, BACKSLASH]);
    ReplaceOctet(value, BACKSLASH, [BACKSLASH, BACKSLASH]);
    var v2 := ReplaceAll(v1, [CR, LF], [LF]);
    ReplaceOctet(v2, CR, [LF]);
    BreaksNormalise(v1);
    DoublingKeepsBreaks(value);
    var v3 := ReplaceAll(v2, [CR], [LF]);
    ReplaceOctet(v3, LF, [BACKSLASH, SMALL_N]);
    var v4 := ReplaceAll(v3, [LF], [BACKSLASH, SMALL_N]);
    ReplaceOctet(v4, SEMICOLON, [BACKSLASH, SEMICOLON]);
    var v5 := ReplaceAll(v4, [SEMICOLON], [BACKSLASH, SEMICOLON]);
    ReplaceOctet(v5, COMMA, [BACKSLASH, COMMA]);
    EscapesCompose(Normalise(value));
  }

  ghost predicate NoBreaks(s: seq<byte>) {
    CR !in s && LF !in s
  }

  lemma {:induction false} NormaliseHasNoCr(s: seq<byte>)
    ensures CR !in Normalise(s)
    decreases |s|
  {
    if s != [] {
      if |s| >= 2 && s[0] == CR && s[1] == LF { NormaliseHasNoCr(s[2..]); } else { NormaliseHasNoCr(s[1..]); }
    }
  }

  lemma {:induction false} EscapedIsRead(s: seq<byte>)
    requires CR !in s
    ensures NoBreaks(FlatMap(s, EscapeOne)) && Unescape(FlatMap(s, EscapeOne)) == Some(s)
  {
    if s != [] {
      EscapedIsRead(s[1..]);
      var first, rest := EscapeOne(s[0]), FlatMap(s[1..], EscapeOne);
      assert (first + rest)[|first|..] == rest;
      assert s == [s[0]] + s[1..];
    }
  }

  /** Escaped text holds no line break, and unescaping it restores the text with its line breaks normalised. */
  lemma EscapedTextRoundTrip(value: seq<byte>)
    ensures NoBreaks(EscapeText(value)) && Unescape(EscapeText(value)) == Some(Normalise(value))
  {
    EscapeTextMeaning(value);
    NormaliseHasNoCr(value);
    EscapedIsRead(Normalise(value));
  }

  // ---------- UTF-8 ----------

  predicate RuneStart(b: byte) {
    b < 0x80 || b >= 0xC0
  }

  /** Characters start at octets that do not continue one: those that do have the bits 10 in front. */
  lemma RunesStartAtOthers(b: byte)
    ensures RuneStart(b) <==> b / 0x40 != 2
  {
  }

  predicate Continues(b: byte, low: int, high: int)
    requires 0x80 <= low && high <= 0xBF
    ensures Continues(b, low, high) ==> !RuneStart(b)
  {
    low <= b <= high
  }

  /** How many octets a well-formed character takes at the start of `s`; zero when there is none. */
  ghost function RuneLength(s: seq<byte>): (n: nat)
    ensures n <= 4 && n <= |s|
    ensures n > 0 ==> RuneStart(s[0]) && forall i :: 1 <= i < n ==> !RuneStart(s[i])
  {
    if s == [] then 0
    else if s[0] < 0x80 then 1
    else if 0xC2 <= s[0] <= 0xDF && |s| >= 2 && Continues(s[1], 0x80, 0xBF) then 2
    else if 0xE0 <= s[0] <= 0xEF && |s| >= 3 && Continues(s[2], 0x80, 0xBF)
         && Continues(s[1], if s[0] == 0xE0 then 0xA0 else 0x80, if s[0] == 0xED then 0x9F else 0xBF) then 3
    else if 0xF0 <= s[0] <= 0xF4 && |s| >= 4 && Continues(s[2], 0x80, 0xBF) && Continues(s[3], 0x80, 0xBF)
         && Continues(s[1], if s[0] == 0xF0 then 0x90 else 0x80, if s[0] == 0xF4 then 0x8F else 0xBF) then 4
    else 0
  }

  /** A character by its number; surrogates stand for none. */
  ghost predicate Scalar(c: nat) {
    c < 0xD800 || 0xE000 <= c < 0x11_0000
  }

  ghost function EncodedRune(c: nat): (octets: seq<byte>)
    requires Scalar(c)
    ensures 1 <= |octets| <= 4
  {
    if c < 0x80 then [c]
    else if c < 0x800 then [0xC0 + c / 0x40, 0x80 + c % 0x40]
    else if c < 0x1_0000 then [0xE0 + c / 0x1000, 0x80 + c / 0x40 % 0x40, 0x80 + c % 0x40]
    else [0xF0 + c / 0x4_0000, 0x80 + c / 0x1000 % 0x40, 0x80 + c / 0x40 % 0x40, 0x80 + c % 0x40]
  }

  /** Every character is recognised by its octets, whatever follows. */
  lemma EncodedRuneIsRecognised(c: nat, rest: seq<byte>)
    requires Scalar(c)
    ensures RuneLength(EncodedRune(c) + rest) == |EncodedRune(c)|
  {
  }

  lemma TwoDigits(a: nat, b: nat)
    requires b < 0x40
    ensures (a * 0x40 + b) / 0x40 == a && (a * 0x40 + b) % 0x40 == b
  {
  }

  lemma ThreeDigits(a: nat, b: nat, c: nat)
    requires b < 0x40 && c < 0x40
    ensures var n := a * 0x1000 + b * 0x40 + c;
            n / 0x1000 == a && n / 0x40 % 0x40 == b && n % 0x40 == c
  {
    TwoDigits(a * 0x40 + b, c);
    TwoDigits(a, b);
  }

  lemma FourDigits(a: nat, b: nat, c: nat, d: nat)
    requires b < 0x40 && c < 0x40 && d < 0x40
    ensures var n := a * 0x4_0000 + b * 0x1000 + c * 0x40 + d;
            n / 0x4_0000 == a && n / 0x1000 % 0x40 == b && n / 0x40 % 0x40 == c && n % 0x40 == d
  {
    ThreeDigits(a * 0x40 + b, c, d);
    TwoDigits(a, b);
  }

  lemma ShortRuneIsEncoded(s: seq<byte>) returns (c: nat)
    requires RuneLength(s) == 1 || RuneLength(s) == 2
    ensures Scalar(c) && s[..RuneLength(s)] == EncodedRune(c)
  {
    c := s[0];
    if RuneLength(s) == 2 {
      var a: nat, b: nat := s[0] - 0xC0, s[1] - 0x80;
      TwoDigits(a, b);
      c := a * 0x40 + b;
    }
  }

  lemma ThreeOctetsAreEncoded(s: seq<byte>) returns (c: nat)
    requires RuneLength(s) == 3
    ensures Scalar(c) && s[..3] == EncodedRune(c)
  {
    var x: nat, y: nat, z: nat := s[0] - 0xE0, s[1] - 0x80, s[2] - 0x80;
    ThreeDigits(x, y, z);
    c := x * 0x1000 + y * 0x40 + z;
  }

  lemma FourOctetsAreEncoded(s: seq<byte>) returns (c: nat)
    requires RuneLength(s) == 4
    ensures Scalar(c) && s[..4] == EncodedRune(c)
  {
    var w: nat, x: nat, y: nat, z: nat := s[0] - 0xF0, s[1] - 0x80, s[2] - 0x80, s[3] - 0x80;
    FourDigits(w, x, y, z);
    c := w * 0x4_0000 + x * 0x1000 + y * 0x40 + z;
  }

  /** What is recognised is a character. */
  lemma RecognisedIsEncoded(s: seq<byte>) returns (c: nat)
    requires RuneLength(s) > 0
    ensures Scalar(c) && s[..RuneLength(s)] == EncodedRune(c)
  {
    if RuneLength(s) <= 2 {
      c := ShortRuneIsEncoded(s);
    } else if RuneLength(s) == 3 {
      c := ThreeOctetsAreEncoded(s);
    } else {
      c := FourOctetsAreEncoded(s);
    }
  }

  ghost predicate ValidUtf8(s: seq<byte>)
    decreases |s|
  {
    s == [] || (RuneLength(s) > 0 && ValidUtf8(s[RuneLength(s)..]))
  }

  ghost function EncodedRunes(text: seq<nat>): seq<byte>
    requires forall c :: c in text ==> Scalar(c)
  {
    if text == [] then [] else EncodedRune(text[0]) + EncodedRunes(text[1..])
  }

  /** Valid UTF-8 is the encoding of characters, and nothing else is. */
  lemma {:induction false} ValidUtf8IsEncoded(s: seq<byte>) returns (text: seq<nat>)
    requires ValidUtf8(s)
    ensures (forall c :: c in text ==> Scalar(c)) && s == EncodedRunes(text)
    decreases |s|
  {
    text := [];
    if s != [] {
      var n := RuneLength(s);
      var first := RecognisedIsEncoded(s);
      var others := ValidUtf8IsEncoded(s[n..]);
      text := [first] + others;
      assert text[1..] == others && s == s[..n] + s[n..];
    }
  }

  lemma {:induction false} EncodedRunesAreValid(text: seq<nat>)
    requires forall c :: c in text ==> Scalar(c)
    ensures ValidUtf8(EncodedRunes(text))
  {
    if text != [] {
      var rest := EncodedRunes(text[1..]);
      EncodedRunesAreValid(text[1..]);
      EncodedRuneIsRecognised(text[0], rest);
      assert (EncodedRune(text[0]) + rest)[|EncodedRune(text[0])|..] == rest;
    }
  }

  /** No more than three continuation octets in a row, `run` of them already seen. */
  ghost predicate ShortRuns(s: seq<byte>, run: nat) {
    s == [] ||
    (if RuneStart(s[0]) then ShortRuns(s[1..], 0) else run < 3 && ShortRuns(s[1..], run + 1))
  }

  /** The rest of a character of `n` octets, from its `k`-th octet on, and then another character. */
  lemma {:induction false} StartThenRun(s: seq<byte>, n: nat, k: nat)
    requires 1 <= k <= n <= 4 && n <= |s| && (forall i :: 1 <= i < n ==> !RuneStart(s[i]))
    requires ShortRuns(s[n..], 0) && (n < |s| ==> RuneStart(s[n]))
    ensures ShortRuns(s[k..], k - 1)
    decreases n - k
  {
    if k < n {
      StartThenRun(s, n, k + 1);
      assert s[k..][1..] == s[k + 1..];
    }
  }

  lemma {:induction false} ValidUtf8HasShortRuns(s: seq<byte>)
    requires ValidUtf8(s)
    ensures ShortRuns(s, 0)
    decreases |s|
  {
    if s != [] {
      var n := RuneLength(s);
      ValidUtf8HasShortRuns(s[n..]);
      StartThenRun(s, n, 1);
    }
  }
}
