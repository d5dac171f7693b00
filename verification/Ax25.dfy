/** AX.25 UI frames: address packing, frame encoding and decoding.  Text is
    its bytes; case mapping and trimming cover ASCII. */
module Ax25 {
  import opened Octets
  import opened Options

  type Text = seq<byte>

  const HYPHEN: byte := 45
  const SPACE: byte := 32

  datatype Frame = Frame(dest: Text, src: Text, digis: seq<Text>, control: byte, pid: byte, info: seq<byte>)

  // ---------- text ----------

  predicate IsDigit(c: byte) {
    48 <= c <= 57
  }

  predicate IsUpper(c: byte) {
    65 <= c <= 90
  }

  predicate IsBlank(c: byte) {
    c == SPACE || 9 <= c <= 13
  }

  function Upper(c: byte): byte {
    if 97 <= c <= 122 then c - 32 else c
  }

  function UpperAll(s: Text): (t: Text)
    ensures |t| == |s|
  {
    seq(|s|, i requires 0 <= i < |s| => Upper(s[i]))
  }

  function TrimLeft(s: Text): Text {
    if s != [] && IsBlank(s[0]) then TrimLeft(s[1..]) else s
  }

  function TrimRight(s: Text): Text {
    if s != [] && IsBlank(s[|s| - 1]) then TrimRight(s[..|s| - 1]) else s
  }

  /** Position of the first c, or the length. */
  function IndexOf(s: Text, c: byte): (i: nat)
    ensures i <= |s|
  {
    if s == [] || s[0] == c then 0 else 1 + IndexOf(s[1..], c)
  }

  /** The number the leading digits of s spell after n. */
  function Digits(s: Text, n: nat): nat {
    if s != [] && IsDigit(s[0]) then Digits(s[1..], 10 * n + (s[0] - 48)) else n
  }

  /** Scanning a decimal: blanks, a sign, digits; zero when there are none. */
  function ScanInt(s: Text): int {
    var t := TrimLeft(s);
    if t != [] && t[0] == HYPHEN then -(Digits(t[1..], 0) as int)
    else if t != [] && t[0] == 43 then Digits(t[1..], 0)
    else Digits(t, 0)
  }

  /** Printing a number below 100. */
  function Decimal(n: nat): Text
    requires n < 100
  {
    if n < 10 then [48 + n] else [48 + n / 10, 48 + n % 10]
  }

  // ---------- address fields ----------

  /** Character k of a name padded with blanks, shifted left. */
  function ShiftedChar(name: Text, k: nat): byte {
    (2 * (if k < |name| then name[k] else SPACE)) % 256
  }

  /** One callsign-SSID in seven shifted bytes; `last` sets the extension bit. */
  function EncAddr(text: Text, last: bool): (b: seq<byte>)
    ensures |b| == 7
  {
    var i := IndexOf(text, HYPHEN);
    var ssid := if i < |text| then ScanInt(text[i + 1..]) else 0;
    var name := UpperAll(TrimRight(TrimLeft(text[..i])));
    seq(6, k requires 0 <= k < 6 => ShiftedChar(name, k)) + [0x60 + 2 * (ssid % 16) + if last then 1 else 0]
  }

  predicate IsCallChar(c: byte) {
    IsUpper(c) || IsDigit(c)
  }

  /** The call characters of the first n bytes of a field, unshifted. */
  function CallChars(b: seq<byte>, n: nat): Text
    requires n <= |b|
  {
    if n == 0 then []
    else CallChars(b, n - 1) + if IsCallChar(b[n - 1] / 2) then [b[n - 1] / 2] else []
  }

  function Field(b: seq<byte>): Text
    requires |b| == 7
  {
    var ssid := (b[6] / 2) % 16;
    if ssid == 0 then CallChars(b, 6) else CallChars(b, 6) + [HYPHEN] + Decimal(ssid)
  }

  // ---------- frames ----------

  function FieldAt(body: seq<byte>, i: nat): Text
    requires 7 * i + 7 <= |body|
  {
    Field(body[7 * i..7 * i + 7])
  }

  /** The number of address fields, n of them counted; None past eight. */
  function AddrCount(body: seq<byte>, n: nat): (r: Option<nat>)
    ensures r.Some? ==> n <= r.value
    decreases 8 - n, |body| - 7 * n
  {
    if 7 * n >= |body| then Some(n)
    else if 7 * n + 6 >= |body| || body[7 * n + 6] % 2 == 1 then Some(n + 1)
    else if n + 1 >= 8 then None
    else AddrCount(body, n + 1)
  }

  function Digipeaters(body: seq<byte>, n: nat): (d: seq<Text>)
    requires 2 <= n && 7 * n <= |body|
    ensures |d| == n - 2
  {
    seq(n - 2, i requires 0 <= i < n - 2 => FieldAt(body, i + 2))
  }

  /** The frame a body stands for. */
  function Decoded(body: seq<byte>): Option<Frame> {
    if |body| < 16 then None
    else
      match AddrCount(body, 0)
      case None => None
      case Some(n) =>
        if |body| < 7 * n + 2 then None
        else Some(Frame(FieldAt(body, 0), FieldAt(body, 1), if n < 2 then [] else Digipeaters(body, n),
                        body[7 * n], body[7 * n + 1], body[7 * n + 2..]))
  }

  method DecodeFrame(body: seq<byte>) returns (f: Option<Frame>)
    ensures f == Decoded(body)
  {
    hide Field;
    if |body| < 16 {
      return None;
    }
    var nAddr := 0;
    var i := 0;
    while i < |body|
      invariant i == 7 * nAddr && nAddr < 8
      invariant AddrCount(body, 0) == AddrCount(body, nAddr)
      decreases |body| - i
    {
      nAddr := nAddr + 1;
      if i + 6 >= |body| || body[i + 6] % 2 == 1 {
        break;
      }
      if nAddr >= 8 {
        return None;
      }
      i := i + 7;
    }
    assert AddrCount(body, 0) == Some(nAddr);
    if |body| < nAddr * 7 + 2 {
      return None;
    }
    var digis: seq<Text> := [];
    var k := 2;
    while k < nAddr
      invariant 2 <= k && (nAddr >= 2 || k > 2 ==> k <= nAddr) && |digis| == k - 2
      invariant forall j :: 0 <= j < k - 2 ==> digis[j] == FieldAt(body, j + 2)
    {
      digis := digis + [FieldAt(body, k)];
      k := k + 1;
    }
    assert nAddr >= 2 ==> digis == Digipeaters(body, nAddr);
    f := Some(Frame(FieldAt(body, 0), FieldAt(body, 1), digis, body[nAddr * 7], body[nAddr * 7 + 1],
                    body[nAddr * 7 + 2..]));
  }

  /** The digipeater fields from index k on. */
  function EncDigis(digis: seq<Text>, k: nat): seq<byte>
    requires k <= |digis|
    decreases |digis| - k
  {
    if k == |digis| then [] else EncAddr(digis[k], k == |digis| - 1) + EncDigis(digis, k + 1)
  }

  /** A UI frame body. */
  function Encoded(src: Text, dest: Text, digis: seq<Text>, info: seq<byte>): seq<byte> {
    EncAddr(dest, |digis| == 0) + EncAddr(src, |digis| == 0) + EncDigis(digis, 0) + [0x03, 0xF0] + info
  }

  lemma EncDigisStep(digis: seq<Text>, k: nat, out: seq<byte>)
    requires k < |digis|
    ensures out + EncDigis(digis, k) == (out + EncAddr(digis[k], k == |digis| - 1)) + EncDigis(digis, k + 1)
  {
    hide EncAddr;
  }

  method EncodeUI(src: Text, dest: Text, digis: seq<Text>, info: seq<byte>) returns (out: seq<byte>)
    ensures out == Encoded(src, dest, digis, info)
  {
    hide EncAddr;
    out := EncAddr(dest, |digis| == 0);
    out := out + EncAddr(src, |digis| == 0);
    ghost var head := out;
    for i := 0 to |digis|
      invariant out + EncDigis(digis, i) == head + EncDigis(digis, 0)
    {
      EncDigisStep(digis, i, out);
      out := out + EncAddr(digis[i], i == |digis| - 1);
    }
    out := out + [0x03, 0xF0];
    out := out + info;
  }

  // ---------- the round trip ----------

  /** A callsign as the link carries it. */
  datatype Station = Station(name: Text, ssid: nat)

  predicate ValidStation(s: Station) {
    |s.name| <= 6 && s.ssid < 16 && forall i :: 0 <= i < |s.name| ==> IsCallChar(s.name[i])
  }

  function Show(s: Station): Text
    requires ValidStation(s)
  {
    if s.ssid == 0 then s.name else s.name + [HYPHEN] + Decimal(s.ssid)
  }

  function ShowAll(ss: seq<Station>): (t: seq<Text>)
    requires forall i :: 0 <= i < |ss| ==> ValidStation(ss[i])
    ensures |t| == |ss|
  {
    seq(|ss|, i requires 0 <= i < |ss| => Show(ss[i]))
  }

  lemma {:induction false} IndexAfter(s: Text, rest: Text)
    requires forall i :: 0 <= i < |s| ==> IsCallChar(s[i])
    requires rest == [] || rest[0] == HYPHEN
    ensures IndexOf(s + rest, HYPHEN) == |s|
    decreases |s|
  {
    if s == [] {
      assert s + rest == rest;
    } else {
      assert (s + rest)[1..] == s[1..] + rest;
      assert IsCallChar(s[0]);
      IndexAfter(s[1..], rest);
    }
  }

  lemma ScanDecimal(n: nat)
    requires n < 16
    ensures ScanInt(Decimal(n)) == n
  {
    var t := Decimal(n);
    assert TrimLeft(t) == t;
    assert t[0] != HYPHEN && t[0] != 43;
    if n < 10 {
      assert Digits(t, 0) == Digits(t[1..], n) == n;
    } else {
      assert t[1..][1..] == [];
      assert Digits(t, 0) == Digits(t[1..], n / 10) == Digits(t[1..][1..], n);
    }
  }

  lemma CleanName(s: Text)
    requires forall i :: 0 <= i < |s| ==> IsCallChar(s[i])
    ensures UpperAll(TrimRight(TrimLeft(s))) == s
  {
    if s != [] {
      assert IsCallChar(s[0]) && IsCallChar(s[|s| - 1]);
    }
  }

  lemma EncShown(s: Station, last: bool)
    requires ValidStation(s)
    ensures EncAddr(Show(s), last)
         == seq(6, k requires 0 <= k < 6 => ShiftedChar(s.name, k)) + [0x60 + 2 * s.ssid + if last then 1 else 0]
  {
    hide IndexOf, UpperAll, TrimRight, TrimLeft, ScanInt, Show, Decimal, ShiftedChar;
    ShownParts(s);
    CleanName(s.name);
    if s.ssid != 0 {
      ScanDecimal(s.ssid);
    }
  }

  /** The name ends at the hyphen, and the number follows it. */
  lemma ShownParts(s: Station)
    requires ValidStation(s)
    ensures var text := Show(s);
            IndexOf(text, HYPHEN) == |s.name| <= |text| && text[..|s.name|] == s.name &&
            (s.ssid == 0 ==> |text| == |s.name|) &&
            (s.ssid != 0 ==> |text| > |s.name| && text[|s.name| + 1..] == Decimal(s.ssid))
  {
    hide IndexOf, Decimal;
    var rest := if s.ssid == 0 then [] else [HYPHEN] + Decimal(s.ssid);
    assert Show(s) == s.name + rest;
    IndexAfter(s.name, rest);
  }

  lemma ShiftBack(name: Text, k: nat)
    requires forall i :: 0 <= i < |name| ==> IsCallChar(name[i])
    ensures ShiftedChar(name, k) / 2 == if k < |name| then name[k] else SPACE
    ensures ShiftedChar(name, k) % 2 == 0
  {
    if k < |name| {
      assert IsCallChar(name[k]);
    }
  }

  lemma {:induction false} CallCharsOf(b: seq<byte>, name: Text, n: nat)
    requires n <= 6 <= |b| && |name| <= 6
    requires forall i :: 0 <= i < |name| ==> IsCallChar(name[i])
    requires forall k :: 0 <= k < 6 ==> b[k] == ShiftedChar(name, k)
    ensures CallChars(b, n) == if n <= |name| then name[..n] else name
  {
    hide ShiftedChar;
    if n == 0 {
    } else {
      CallCharsOf(b, name, n - 1);
      ShiftBack(name, n - 1);
      if n <= |name| {
        assert IsCallChar(name[n - 1]);
        assert name[..n] == name[..n - 1] + [name[n - 1]];
      } else {
        assert !IsCallChar(SPACE);
        assert name[..|name|] == name;
      }
    }
  }

  lemma SsidByte(ssid: nat, last: bool)
    requires ssid < 16
    ensures var b := 0x60 + 2 * ssid + if last then 1 else 0; (b / 2) % 16 == ssid && (b % 2 == 1) == last
  {}

  lemma FieldValue(b: seq<byte>, s: Station)
    requires ValidStation(s) && |b| == 7 && CallChars(b, 6) == s.name && (b[6] / 2) % 16 == s.ssid
    ensures Field(b) == Show(s)
  {
    hide CallChars, Decimal;
  }

  lemma PackedBytes(s: Station, last: bool)
    requires ValidStation(s)
    ensures var b := EncAddr(Show(s), last);
            b[6] == 0x60 + 2 * s.ssid + (if last then 1 else 0) &&
            forall k :: 0 <= k < 6 ==> b[k] == ShiftedChar(s.name, k)
  {
    EncShown(s, last);
    hide EncAddr, ShiftedChar, Show;
  }

  /** A packed field reads back, and shows its extension bit. */
  lemma FieldRoundTrip(s: Station, last: bool)
    requires ValidStation(s)
    ensures Field(EncAddr(Show(s), last)) == Show(s)
    ensures (EncAddr(Show(s), last)[6] % 2 == 1) == last
    ensures EncAddr(Show(s), last)[0] % 2 == 0
  {
    hide EncAddr, ShiftedChar, IsCallChar, Decimal, Field, Show, CallChars;
    var b := EncAddr(Show(s), last);
    PackedBytes(s, last);
    CallCharsOf(b, s.name, 6);
    assert s.name[..|s.name|] == s.name;
    SsidByte(s.ssid, last);
    ShiftBack(s.name, 0);
    FieldValue(b, s);
  }

  // ---------- frames, field for field ----------

  function Flat(fs: seq<seq<byte>>): seq<byte> {
    if fs == [] then [] else fs[0] + Flat(fs[1..])
  }

  ghost predicate Sevens(fs: seq<seq<byte>>) {
    forall j :: 0 <= j < |fs| ==> |fs[j]| == 7
  }

  lemma {:induction false} FlatAt(fs: seq<seq<byte>>, tail: seq<byte>, j: nat)
    requires Sevens(fs) && j < |fs|
    ensures |Flat(fs)| == 7 * |fs|
    ensures (Flat(fs) + tail)[7 * j..7 * j + 7] == fs[j]
    decreases |fs|
  {
    var rest := fs[1..];
    assert Flat(fs) + tail == fs[0] + (Flat(rest) + tail);
    FlatLength(fs);
    FlatLength(rest);
    if j == 0 {
    } else {
      FlatAt(rest, tail, j - 1);
      assert (Flat(fs) + tail)[7 * j..7 * j + 7] == (Flat(rest) + tail)[7 * (j - 1)..7 * (j - 1) + 7];
    }
  }

  lemma {:induction false} FlatLength(fs: seq<seq<byte>>)
    requires Sevens(fs)
    ensures |Flat(fs)| == 7 * |fs|
  {
    if fs == [] {
    } else {
      FlatLength(fs[1..]);
    }
  }

  /** The address fields of a frame, in order. */
  function Addresses(src: Text, dest: Text, digis: seq<Text>): (fs: seq<seq<byte>>)
    ensures |fs| == |digis| + 2
  {
    [EncAddr(dest, |digis| == 0), EncAddr(src, |digis| == 0)] +
    seq(|digis|, i requires 0 <= i < |digis| => EncAddr(digis[i], i == |digis| - 1))
  }

  lemma {:induction false} DigisAreFlat(digis: seq<Text>, k: nat)
    requires k <= |digis|
    ensures EncDigis(digis, k)
         == Flat(seq(|digis|, i requires 0 <= i < |digis| => EncAddr(digis[i], i == |digis| - 1))[k..])
    decreases |digis| - k
  {
    hide EncAddr;
    if k == |digis| {
    } else {
      DigisAreFlat(digis, k + 1);
    }
  }

  lemma EncodedIsFlat(src: Text, dest: Text, digis: seq<Text>, info: seq<byte>)
    ensures Encoded(src, dest, digis, info) == Flat(Addresses(src, dest, digis)) + ([0x03, 0xF0] + info)
  {
    hide EncAddr;
    DigisAreFlat(digis, 0);
    var fs := Addresses(src, dest, digis);
    var d := seq(|digis|, i requires 0 <= i < |digis| => EncAddr(digis[i], i == |digis| - 1));
    assert fs[1..][1..] == d == d[0..];
    assert Flat(fs) == fs[0] + (fs[1] + Flat(d));
  }

  /** Counting stops at the first field with the extension bit. */
  lemma {:induction false} CountTo(body: seq<byte>, n: nat, total: nat)
    requires n < total && 7 * total <= |body| && total <= 8
    requires forall j :: n <= j < total - 1 ==> body[7 * j + 6] % 2 == 0
    requires body[7 * (total - 1) + 6] % 2 == 1
    ensures AddrCount(body, n) == Some(total)
    decreases total - n
  {
    if n == total - 1 {
    } else {
      assert body[7 * n + 6] % 2 == 0;
      CountTo(body, n + 1, total);
    }
  }

  /** Eight fields without it are refused. */
  lemma {:induction false} CountTooMany(body: seq<byte>, n: nat)
    requires n < 8 && 56 <= |body|
    requires forall j :: n <= j < 8 ==> body[7 * j + 6] % 2 == 0
    ensures AddrCount(body, n) == None
    decreases 8 - n
  {
    assert body[7 * n + 6] % 2 == 0;
    if n == 7 {
    } else {
      CountTooMany(body, n + 1);
    }
  }

  ghost predicate ValidStations(ss: seq<Station>) {
    forall i :: 0 <= i < |ss| ==> ValidStation(ss[i])
  }

  /** Station j of the address list: destination, source, then digipeaters. */
  function StationAt(src: Station, dest: Station, digis: seq<Station>, j: nat): Station
    requires j < |digis| + 2
  {
    if j == 0 then dest else if j == 1 then src else digis[j - 2]
  }

  lemma FieldOfBody(src: Station, dest: Station, digis: seq<Station>, info: seq<byte>, j: nat)
    requires ValidStation(src) && ValidStation(dest) && ValidStations(digis) && j < |digis| + 2
    ensures var body := Encoded(Show(src), Show(dest), ShowAll(digis), info);
            |body| == 7 * (|digis| + 2) + 2 + |info|
            && FieldAt(body, j) == Show(StationAt(src, dest, digis, j))
            && (body[7 * j + 6] % 2 == 1) == (|digis| == 0 || j == |digis| + 1)
            && body[7 * j] % 2 == 0
  {
    hide Encoded, EncAddr, Field, Show;
    var fs := Addresses(Show(src), Show(dest), ShowAll(digis));
    var tail := [0x03, 0xF0] + info;
    EncodedIsFlat(Show(src), Show(dest), ShowAll(digis), info);
    FlatLength(fs);
    FlatAt(fs, tail, j);
    var last := |digis| == 0 || j == |digis| + 1;
    var st := StationAt(src, dest, digis, j);
    assert fs[j] == EncAddr(Show(st), last);
    FieldRoundTrip(st, last);
    var body := Flat(fs) + tail;
    assert body[7 * j..7 * j + 7][6] == body[7 * j + 6] && body[7 * j..7 * j + 7][0] == body[7 * j];
  }

  lemma TailOfBody(src: Text, dest: Text, digis: seq<Text>, info: seq<byte>)
    ensures var body := Encoded(src, dest, digis, info); var n := 7 * (|digis| + 2);
            |body| == n + 2 + |info| && body[n] == 0x03 && body[n + 1] == 0xF0 && body[n + 2..] == info
  {
    hide EncAddr, Encoded;
    EncodedIsFlat(src, dest, digis, info);
    FlatLength(Addresses(src, dest, digis));
  }

  /** The octets on the wire: destination, source and digipeaters, six shifted
      characters each and then the SSID, whose lowest bit marks the last. */
  lemma WireOctets(src: Station, dest: Station, digis: seq<Station>, info: seq<byte>, j: nat, k: nat)
    requires ValidStation(src) && ValidStation(dest) && ValidStations(digis) && j < |digis| + 2 && k < 7
    ensures var body := Encoded(Show(src), Show(dest), ShowAll(digis), info);
            var s := if j == 0 then dest else if j == 1 then src else digis[j - 2];
            7 * j + k < |body| &&
            (k < 6 ==> body[7 * j + k] == if k < |s.name| then 2 * s.name[k] else 2 * 0x20) &&
            (k == 6 ==> body[7 * j + k] == 0x60 + 2 * s.ssid + if |digis| == 0 || j == |digis| + 1 then 1 else 0)
  {
    hide Encoded, EncAddr, Show, ShowAll;
    var s := StationAt(src, dest, digis, j);
    var last := |digis| == 0 || j == |digis| + 1;
    WireField(src, dest, digis, info, j);
    PackedBytes(s, last);
    var body := Encoded(Show(src), Show(dest), ShowAll(digis), info);
    assert body[7 * j..7 * j + 7][k] == body[7 * j + k];
    if k < |s.name| {
      assert IsCallChar(s.name[k]);
    }
  }

  lemma WireField(src: Station, dest: Station, digis: seq<Station>, info: seq<byte>, j: nat)
    requires ValidStation(src) && ValidStation(dest) && ValidStations(digis) && j < |digis| + 2
    ensures ValidStation(StationAt(src, dest, digis, j))
    ensures var body := Encoded(Show(src), Show(dest), ShowAll(digis), info);
            7 * j + 7 <= |body| &&
            body[7 * j..7 * j + 7]
              == EncAddr(Show(StationAt(src, dest, digis, j)), |digis| == 0 || j == |digis| + 1)
  {
    hide Encoded, EncAddr, Show;
    var fs := Addresses(Show(src), Show(dest), ShowAll(digis));
    EncodedIsFlat(Show(src), Show(dest), ShowAll(digis), info);
    FlatLength(fs);
    FlatAt(fs, [0x03, 0xF0] + info, j);
  }

  function UiFrame(src: Station, dest: Station, digis: seq<Station>, info: seq<byte>): Frame
    requires ValidStation(src) && ValidStation(dest) && ValidStations(digis)
  {
    Frame(Show(dest), Show(src), ShowAll(digis), 0x03, 0xF0, info)
  }

  lemma RoundTripOneToSix(src: Station, dest: Station, digis: seq<Station>, info: seq<byte>)
    requires ValidStation(src) && ValidStation(dest) && ValidStations(digis) && 1 <= |digis| <= 6
    ensures Decoded(Encoded(Show(src), Show(dest), ShowAll(digis), info)) == Some(UiFrame(src, dest, digis, info))
  {
    hide Encoded, Show, FieldAt;
    var body := Encoded(Show(src), Show(dest), ShowAll(digis), info);
    var n := |digis| + 2;
    TailOfBody(Show(src), Show(dest), ShowAll(digis), info);
    forall j: nat | j < n
      ensures FieldAt(body, j) == Show(StationAt(src, dest, digis, j))
      ensures (body[7 * j + 6] % 2 == 1) == (j == n - 1)
    {
      FieldOfBody(src, dest, digis, info, j);
    }
    CountTo(body, 0, n);
    assert Digipeaters(body, n) == ShowAll(digis);
  }

  lemma NoDigipeaters(src: Station, dest: Station, info: seq<byte>)
    requires ValidStation(src) && ValidStation(dest)
    ensures Decoded(Encoded(Show(src), Show(dest), ShowAll([]), info)) != Some(UiFrame(src, dest, [], info))
  {
    hide Encoded, Show, FieldAt;
    var body := Encoded(Show(src), Show(dest), ShowAll([]), info);
    FieldOfBody(src, dest, [], info, 0);
    FieldOfBody(src, dest, [], info, 1);
    CountTo(body, 0, 1);
  }

  lemma TooManyDigipeaters(src: Station, dest: Station, digis: seq<Station>, info: seq<byte>)
    requires ValidStation(src) && ValidStation(dest) && ValidStations(digis) && |digis| > 6
    ensures Decoded(Encoded(Show(src), Show(dest), ShowAll(digis), info)) == None
  {
    hide Encoded, Show, FieldAt;
    var body := Encoded(Show(src), Show(dest), ShowAll(digis), info);
    FieldOfBody(src, dest, digis, info, 0);
    forall j: nat | j < 8
      ensures body[7 * j + 6] % 2 == 0
    {
      FieldOfBody(src, dest, digis, info, j);
    }
    CountTooMany(body, 0);
  }

  /** A UI frame comes back field for field exactly when it has one to six
      digipeaters; with none the destination already ends the address list. */
  lemma RoundTripIff(src: Station, dest: Station, digis: seq<Station>, info: seq<byte>)
    requires ValidStation(src) && ValidStation(dest) && ValidStations(digis)
    ensures Decoded(Encoded(Show(src), Show(dest), ShowAll(digis), info)) == Some(UiFrame(src, dest, digis, info))
       <==> 1 <= |digis| <= 6
  {
    hide Decoded, Encoded, Show;
    if |digis| == 0 {
      assert digis == [];
      NoDigipeaters(src, dest, info);
    } else if |digis| <= 6 {
      RoundTripOneToSix(src, dest, digis, info);
    } else {
      TooManyDigipeaters(src, dest, digis, info);
    }
  }
}
