/** EBML variable-size integers (section 4 of RFC 8794). */
module Vint {
  import opened Options
  import opened Bytes

  datatype Reading = Reading(value: nat, width: nat, unknown: bool)

  /** 2 to the power 8 - width: the marker bit of the first octet. */
  ghost function Marker(width: nat): nat
    requires 1 <= width <= 8
  {
    match width
    case 1 => 128 case 2 => 64 case 3 => 32 case 4 => 16
    case 5 => 8 case 6 => 4 case 7 => 2 case _ => 1
  }

  /** 2 to the power 7 * width: how many values fit a width. */
  function Capacity(width: nat): nat
    requires 1 <= width <= 8
  {
    match width
    case 1 => 0x80 case 2 => 0x4000 case 3 => 0x20_0000 case 4 => 0x1000_0000
    case 5 => 0x8_0000_0000 case 6 => 0x400_0000_0000 case 7 => 0x2_0000_0000_0000 case _ => 0x100_0000_0000_0000
  }

  lemma MarkerFillsWidth(width: nat)
    requires 1 <= width <= 8
    ensures Marker(width) * Pow256(width - 1) == Capacity(width) && 2 * Capacity(width) <= Pow256(width)
  {
    assert Pow256(1) == 256 * Pow256(0);
    assert Pow256(2) == 256 * Pow256(1);
    assert Pow256(3) == 256 * Pow256(2);
    assert Pow256(4) == 256 * Pow256(3);
    assert Pow256(5) == 256 * Pow256(4);
    assert Pow256(6) == 256 * Pow256(5);
    assert Pow256(7) == 256 * Pow256(6);
    assert Pow256(8) == 256 * Pow256(7);
  }

  /** The encoding: the marker bit, then the payload, in `width` octets. */
  ghost function VintBytes(payload: nat, width: nat): (s: seq<byte>)
    requires 1 <= width <= 8 && payload < Capacity(width)
    ensures |s| == width
  {
    BigEndianBytes(Capacity(width) + payload, width)
  }

  ghost predicate VintAt(data: seq<byte>, offset: nat, payload: nat, width: nat) {
    && 1 <= width <= 8 && payload < Capacity(width)
    && offset + width <= |data| && data[offset..offset + width] == VintBytes(payload, width)
  }

  lemma MulOrder(a: int, b: int, p: int)
    requires a <= b && p >= 0
    ensures a * p <= b * p
  {
  }

  lemma ShiftedProduct(a: int, p: int)
    ensures a * (256 * p) == 256 * (a * p)
  {
  }

  /** A leading digit is within `m..2m` exactly when the whole number is within `m * p..2m * p`. */
  lemma LeadingDigit(a: int, m: int, p: int, r: int)
    requires 0 <= r < p
    ensures m <= a < 2 * m <==> m * p <= a * p + r < 2 * (m * p)
  {
    if a < m { MulOrder(a + 1, m, p); } else { MulOrder(m, a, p); }
    if a < 2 * m { MulOrder(a + 1, 2 * m, p); } else { MulOrder(2 * m, a, p); }
    assert (2 * m) * p == 2 * (m * p);
    assert (a + 1) * p == a * p + p;
  }

  lemma {:induction false} LeadingOctet(s: seq<byte>)
    requires s != []
    ensures BigEndian(s) == s[0] * Pow256(|s| - 1) + BigEndian(s[1..])
  {
    if |s| > 1 {
      var front := s[..|s| - 1];
      LeadingOctet(front);
      assert s[1..][..|s| - 2] == front[1..];
      ShiftedProduct(front[0], Pow256(|s| - 2));
    }
  }

  /** The first octet alone tells the width: the marker is its leading one bit. */
  lemma FirstOctet(payload: nat, width: nat)
    requires 1 <= width <= 8 && payload < Capacity(width)
    ensures Marker(width) <= VintBytes(payload, width)[0] < 2 * Marker(width)
    ensures BigEndian(VintBytes(payload, width)) == Capacity(width) + payload
  {
    var s := VintBytes(payload, width);
    MarkerFillsWidth(width);
    BigEndianInverts(Capacity(width) + payload, width);
    LeadingOctet(s);
    BigEndianBound(s[1..]);
    LeadingDigit(s[0], Marker(width), Pow256(width - 1), BigEndian(s[1..]));
  }

  /** At most one integer starts at an offset. */
  lemma VintIsUnique(data: seq<byte>, offset: nat, p: nat, w: nat, p': nat, w': nat)
    requires VintAt(data, offset, p, w) && VintAt(data, offset, p', w')
    ensures p == p' && w == w'
  {
    FirstOctet(p, w);
    FirstOctet(p', w');
    assert data[offset] == VintBytes(p, w)[0] == VintBytes(p', w')[0];
  }

  /** Any octets with a marker bit in the first one are the encoding of something. */
  lemma EveryMarkedRunIsVint(s: seq<byte>, width: nat)
    requires 1 <= width <= 8 && |s| == width && Marker(width) <= s[0] < 2 * Marker(width)
    ensures Capacity(width) <= BigEndian(s) < 2 * Capacity(width)
    ensures s == VintBytes(BigEndian(s) - Capacity(width), width)
  {
    MarkerFillsWidth(width);
    LeadingOctet(s);
    BigEndianBound(s[1..]);
    LeadingDigit(s[0], Marker(width), Pow256(width - 1), BigEndian(s[1..]));
    BigEndianRestores(s);
  }

  lemma RemainderBelowTwice(a: nat, m: nat)
    requires 0 < m <= a < 2 * m
    ensures a % m == a - m
  {
    assert a == m * 1 + (a - m);
  }

  lemma QuotientOne(octet: nat, marker: nat)
    requires 0 < marker <= octet < 2 * marker
    ensures octet / marker == 1
  {
    RemainderBelowTwice(octet, marker);
  }

  lemma BitClear(octet: byte, marker: nat)
    requires marker in {1, 2, 4, 8, 16, 32, 64, 128} && 0 < octet < 2 * marker && octet / marker % 2 == 0
    ensures octet < marker && marker > 1
  {
    if octet >= marker { QuotientOne(octet, marker); }
  }

  /** Shifts the marker until it meets the leading one bit of the octet. */
  method FindMarker(octet: byte, maximumWidth: nat) returns (width: nat, marker: nat)
    requires 1 <= maximumWidth <= 8 && octet != 0
    ensures 1 <= width <= maximumWidth + 1
    ensures width <= maximumWidth ==> marker == Marker(width) && marker <= octet < 2 * marker
    ensures width == maximumWidth + 1 && width <= 8 ==> octet < 2 * Marker(width)
    ensures width <= 8
  {
    width, marker := 1, 128;
    while width <= maximumWidth && octet / marker % 2 == 0
      invariant 1 <= width <= maximumWidth + 1 && width <= 8
      invariant marker == Marker(width) && octet < 2 * marker
      decreases maximumWidth - width
    {
      BitClear(octet, marker);
      width := width + 1;
      marker := marker / 2;
    }
  }

  /** Shifts the octets together, the marker bit of the first one removed on request. */
  method AssembleValue(data: seq<byte>, offset: nat, width: nat, marker: nat, removeMarker: bool) returns (value: nat)
    requires 1 <= width && offset + width <= |data| && marker > 0 && marker <= data[offset] < 2 * marker
    ensures value == BigEndian(data[offset..offset + width]) - (if removeMarker then marker * Pow256(width - 1) else 0)
  {
    value := data[offset];
    if removeMarker {
      RemainderBelowTwice(data[offset], marker);
      value := data[offset] % marker;
    }
    assert data[offset..offset + 1][..0] == [];
    for index := 1 to width
      invariant value == BigEndian(data[offset..offset + index]) - (if removeMarker then marker * Pow256(index - 1) else 0)
    {
      assert data[offset..offset + index + 1][..index] == data[offset..offset + index];
      ShiftedProduct(marker, Pow256(index - 1));
      value := value * 256 + data[offset + index];
    }
  }

  lemma NoMarker(data: seq<byte>, offset: nat, maximumWidth: nat, width: nat)
    requires 1 <= width <= 9 && maximumWidth <= 8
    requires offset < |data| ==> (width <= 8 ==> data[offset] < 2 * Marker(width)) && (width == 9 ==> data[offset] == 0)
    requires offset >= |data| || width > maximumWidth || (data[offset] >= Marker(width) && offset + width > |data|)
    ensures forall p: nat, w: nat :: w <= maximumWidth ==> !VintAt(data, offset, p, w)
  {
    forall p: nat, w: nat | w <= maximumWidth ensures !VintAt(data, offset, p, w) {
      if VintAt(data, offset, p, w) {
        FirstOctet(p, w);
      }
    }
  }

  /** Reads an element ID (`removeMarker` false, the marker stays in the value) or an element size. */
  method ReadVariable(data: seq<byte>, offset: nat, maximumWidth: nat, removeMarker: bool) returns (result: Option<Reading>)
    requires 1 <= maximumWidth <= 8
    ensures result.Some? ==> var r := result.value;
      && 1 <= r.width <= maximumWidth
      && (removeMarker ==> VintAt(data, offset, r.value, r.width))
      && (!removeMarker ==> r.value >= Capacity(r.width) && VintAt(data, offset, r.value - Capacity(r.width), r.width))
      && (r.unknown <==> removeMarker && r.value == Capacity(r.width) - 1)
    ensures result.None? ==> forall p: nat, w: nat :: w <= maximumWidth ==> !VintAt(data, offset, p, w)
  {
    if offset >= |data| || data[offset] == 0 {
      NoMarker(data, offset, maximumWidth, 9);
      return None;
    }
    var width, marker := FindMarker(data[offset], maximumWidth);
    if marker == 0 || width > maximumWidth || offset + width > |data| {
      NoMarker(data, offset, maximumWidth, width);
      return None;
    }
    var value := AssembleValue(data, offset, width, marker, removeMarker);
    MarkerFillsWidth(width);
    EveryMarkedRunIsVint(data[offset..offset + width], width);
    result := Some(Reading(value, width, removeMarker && value == Capacity(width) - 1));
  }

  /** The reader inverts the encoding for every width, whatever follows. */
  lemma VintStandsAtItsStart(payload: nat, width: nat, before: seq<byte>, after: seq<byte>)
    requires 1 <= width <= 8 && payload < Capacity(width)
    ensures VintAt(before + VintBytes(payload, width) + after, |before|, payload, width)
  {
    var data := before + VintBytes(payload, width) + after;
    assert data[|before|..|before| + width] == VintBytes(payload, width);
  }
}
