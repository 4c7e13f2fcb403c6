/** The Intel HEX writer and a decoder of the standard format. */
module IntelHex {
  import opened CTypes
  import opened Digits

  // ---- Hexadecimal text ----

  predicate IsHex(c: char) { '0' <= c <= '9' || 'a' <= c <= 'f' || 'A' <= c <= 'F' }

  function Nibble(c: char): (n: nat)
    requires IsHex(c)
    ensures n < 16
  {
    if c <= '9' then c as int - '0' as int
    else if c <= 'F' then c as int - 'A' as int + 10
    else c as int - 'a' as int + 10
  }

  function HexChar(n: nat): (c: char)
    requires n < 16
    ensures IsHex(c) && Nibble(c) == n
  {
    if n < 10 then (n + '0' as int) as char else (n - 10 + 'a' as int) as char
  }

  predicate AllHex(s: string) { forall i :: 0 <= i < |s| ==> IsHex(s[i]) }

  /** The bytes that a hex text spells, two characters each. */
  function Bytes(s: string): (b: seq<int>)
    requires AllHex(s) && |s| % 2 == 0
    ensures |b| == |s| / 2
  {
    if s == "" then [] else [Nibble(s[0]) * 16 + Nibble(s[1])] + Bytes(s[2..])
  }

  function Sum(b: seq<int>): int {
    if b == [] then 0 else b[0] + Sum(b[1..])
  }

  lemma {:induction false} BytesConcat(s: string, t: string)
    requires AllHex(s) && AllHex(t) && |s| % 2 == 0 && |t| % 2 == 0
    ensures AllHex(s + t) && Bytes(s + t) == Bytes(s) + Bytes(t)
  {
    if s == "" {
      assert s + t == t;
    } else {
      var h, u, v := [Nibble(s[0]) * 16 + Nibble(s[1])], Bytes(s[2..]), Bytes(t);
      BytesConcat(s[2..], t);
      assert (s + t)[2..] == s[2..] + t;
      assert h + (u + v) == (h + u) + v;
    }
  }

  lemma {:induction false} SumConcat(a: seq<int>, b: seq<int>)
    ensures Sum(a + b) == Sum(a) + Sum(b)
  {
    if a == [] {
      assert a + b == b;
    } else {
      SumConcat(a[1..], b);
      assert (a + b)[1..] == a[1..] + b;
    }
  }

  // ---- The writer ----

  /** text[i*n : i*n+n] for every whole piece; a short rest is dropped. */
  function SplitN(text: string, n: nat): (parts: seq<string>)
    requires n > 0
    ensures |parts| == |text| / n
  {
    seq(|text| / n, i requires 0 <= i < |text| / n => (PieceBound(|text|, n, i); text[i * n..i * n + n]))
  }

  lemma PieceBound(len: nat, n: nat, i: nat)
    requires n > 0 && i < len / n
    ensures 0 <= i * n <= i * n + n <= len
  {
    assert len == n * (len / n) + len % n;
    MulStep(n, len / n, i);
  }

  predicate IsSpace(c: char) { c == ' ' || '\t' as int <= c as int <= '\r' as int }

  function Strip(s: string): string {
    if s == "" then s
    else if IsSpace(s[0]) then Strip(s[1..])
    else if IsSpace(s[|s| - 1]) then Strip(s[..|s| - 1])
    else s
  }

  /** int(p, 16) for at most two characters; None stands for the ValueError. */
  function PieceValue(p: string): Option<int> {
    var t := Strip(p);
    var signed := t != "" && t[0] in {'+', '-'};
    var digits := if signed then t[1..] else t;
    if digits == "" || !AllHex(digits) then None
    else
      var v: int := HexValue(digits);
      Some(if signed && t[0] == '-' then -v else v)
  }

  /** The value of every piece, or None when one of them has none. */
  function ConvHexlist(list: seq<string>): (r: Option<seq<int>>)
  {
    if list == [] then Some([])
    else
      var first, rest := PieceValue(list[0]), ConvHexlist(list[1..]);
      if first.None? || rest.None? then None else Some([first.value] + rest.value)
  }

  function HexValue(s: string): nat
    requires AllHex(s)
  {
    if s == "" then 0 else HexValue(s[..|s| - 1]) * 16 + Nibble(s[|s| - 1])
  }

  function Hex(n: nat): (s: string)
    ensures |s| >= 1 && AllHex(s)
  {
    if n < 16 then [HexChar(n)] else Hex(n / 16) + [HexChar(n % 16)]
  }

  /** format(n, '0<w>x'): at least w lower-case digits. */
  function Format(n: nat, w: nat): (s: string)
    ensures AllHex(s) && |s| == Max(w, |Hex(n)|)
  {
    seq(Max(w - |Hex(n)|, 0), i => '0') + Hex(n)
  }

  /** The record for one line of data, or None when a digit pair is not a number. */
  function Record(addr: nat, data: string): Option<string> {
    var bytes := ConvHexlist(SplitN(data, 2));
    var place := ConvHexlist(SplitN(Format(addr, 4), 2));
    if bytes.None? || place.None? then None
    else
      var checksum := (0 - (4 + Sum(place.value) + 0 + Sum(bytes.value))) % 0x100;
      Some(":" + "04" + Format(addr, 4) + "00" + data + Format(checksum, 2) + "\n")
  }

  const EOF_RECORD: string := ":00000001FF"

  /** The records for the lines from address addr on. */
  function Records(lines: seq<string>, addr: nat): Option<string> {
    if lines == [] then Some("")
    else
      var first, rest := Record(addr, Strip(lines[0])), Records(lines[1..], addr + 1);
      if first.None? || rest.None? then None else Some(first.value + rest.value)
  }

  /** The conversion loop: read a line, write its record, count the address up. */
  method WriteImage(lines: seq<string>) returns (ok: bool, out: string)
    ensures ok == Records(lines, 0).Some?
    ensures ok ==> out == Records(lines, 0).value + EOF_RECORD + "\n"
    ensures Recovered(lines, 0) == if ok then Decode(out) else None
  {
    hide Record, Strip, Decode;
    out := "";
    var addr, k := 0, 0;
    while k < |lines|
      invariant 0 <= k <= |lines| && addr == k
      invariant Records(lines, 0).Some? == Records(lines[k..], addr).Some?
      invariant Records(lines, 0).Some? ==> Records(lines, 0).value == out + Records(lines[k..], addr).value
    {
      assert lines[k..][1..] == lines[k + 1..];
      var data := Strip(lines[k]);
      var record := Record(addr, data);
      if record.None? {
        ok := false;
        return;
      }
      out := out + record.value;
      addr := addr + 1;
      k := k + 1;
    }
    ok := true;
    out := out + EOF_RECORD + "\n";
  }

  // ---- The standard's reading ----

  datatype Rec = Data(offset: int, bytes: seq<int>) | EndOfFile

  /**
   * One record, without its line end: record mark, RECLEN, LOAD OFFSET, RECTYP, data and
   * CHKSUM; all bytes after the mark sum to 0 modulo 256.
   */
  function DecodeRecord(s: string): Option<Rec> {
    if |s| < 11 || s[0] != ':' || |s| % 2 == 0 || !AllHex(s[1..]) then None
    else
      var b := Bytes(s[1..]);
      if |b| != 5 + b[0] || Sum(b) % 0x100 != 0 then None
      else if b[3] == 0 then Some(Data(b[1] * 0x100 + b[2], b[4..|b| - 1]))
      else if b[3] == 1 && b[0] == 0 then Some(EndOfFile)
      else None
  }

  /** The position of the next line feed, or the end of the text. */
  function LineEnd(s: string, i: nat): (e: nat)
    requires i <= |s|
    ensures i <= e <= |s| && (e < |s| ==> s[e] == '\n')
    ensures forall k :: i <= k < e ==> s[k] != '\n'
    decreases |s| - i
  {
    if i == |s| || s[i] == '\n' then i else LineEnd(s, i + 1)
  }

  /** The data records of a file that ends with its one end-of-file record. */
  function Decode(s: string): Option<seq<Rec>>
    decreases |s|
  {
    var e := LineEnd(s, 0);
    if e == |s| then None
    else
      var r := DecodeRecord(s[..e]);
      if r.None? then None
      else if r.value.EndOfFile? then if e + 1 == |s| then Some([]) else None
      else
        var rest := Decode(s[e + 1..]);
        if rest.None? then None else Some([r.value] + rest.value)
  }

  // ---- The round trip ----

  /** The memory image: every line's four bytes, at consecutive word addresses. */
  function Image(lines: seq<string>, addr: nat): seq<Rec>
    requires forall l :: l in lines ==> WordLine(l)
  {
    if lines == [] then []
    else
      assert WordLine(lines[0]);
      [Data(addr, Bytes(Strip(lines[0])))] + Image(lines[1..], addr + 1)
  }

  predicate WordLine(line: string) { AllHex(Strip(line)) && |Strip(line)| == 8 }

  lemma {:induction false} ConvIsBytes(s: string)
    requires AllHex(s) && |s| % 2 == 0
    ensures ConvHexlist(SplitN(s, 2)) == Some(Bytes(s))
    decreases |s|
  {
    hide PieceValue;
    if s != "" {
      var parts := SplitN(s, 2);
      assert parts[1..] == SplitN(s[2..], 2) by {
        forall i | 0 <= i < |parts| - 1 ensures parts[1..][i] == SplitN(s[2..], 2)[i] {
          assert s[2..][i * 2..i * 2 + 2] == s[(i + 1) * 2..(i + 1) * 2 + 2];
        }
      }
      ConvIsBytes(s[2..]);
      PairValue(parts[0]);
    }
  }

  lemma PairValue(p: string)
    requires |p| == 2 && AllHex(p)
    ensures PieceValue(p) == Some(Nibble(p[0]) * 16 + Nibble(p[1]))
  {
    assert Strip(p) == p;
    assert p[..1][..0] == "" && HexValue(p[..1]) == Nibble(p[0]);
  }

  lemma {:induction false} HexLength(n: nat, k: nat)
    requires k >= 1
    ensures |Hex(n)| <= k <==> n < Pow(16, k)
    decreases k
  {
    if k == 1 {
      PowOne(16);
    } else {
      var p := Pow(16, k - 1);
      assert Pow(16, k) == 16 * p;
      if n >= 16 {
        HexLength(n / 16, k - 1);
        assert n / 16 < p <==> n < 16 * p;
      }
    }
  }

  lemma FormatUnfold(n: nat, w: nat)
    requires w >= 2
    ensures Format(n, w) == Format(n / 16, w - 1) + [HexChar(n % 16)]
  {
    if n < 16 {
      assert Hex(n / 16) == "0";
    }
  }

  lemma ByteText(n: nat)
    requires n < 0x100
    ensures |Format(n, 2)| == 2 && Bytes(Format(n, 2)) == [n]
  {
    FormatUnfold(n, 2);
    var s := Format(n, 2);
    assert Format(n / 16, 1) == [HexChar(n / 16)];
    assert s == [HexChar(n / 16), HexChar(n % 16)];
    assert s[2..] == "";
  }

  lemma AddressText(n: nat)
    requires n < 0x1_0000
    ensures |Format(n, 4)| == 4 && Bytes(Format(n, 4)) == [n / 0x100, n % 0x100]
  {
    FormatUnfold(n, 4);
    FormatUnfold(n / 16, 3);
    FormatUnfold(n % 0x100, 2);
    var high, low := Format(n / 0x100, 2), Format(n % 0x100, 2);
    assert n / 16 / 16 == n / 0x100 && n % 0x100 / 16 == n / 16 % 16 && n % 0x100 % 16 == n % 16;
    assert low == [HexChar(n / 16 % 16), HexChar(n % 16)];
    assert Format(n, 4) == high + low;
    ByteText(n / 0x100);
    ByteText(n % 0x100);
    BytesConcat(high, low);
  }

  lemma AddressTooLong(n: nat)
    requires n >= 0x1_0000
    ensures |Format(n, 4)| >= 5
  {
    assert Pow(16, 4) == 0x1_0000;
    HexLength(n, 4);
  }

  /** A record of a word line carries its data to its address. */
  lemma RecordDecodes(addr: nat, data: string)
    requires addr < 0x1_0000 && AllHex(data) && |data| == 8
    ensures Record(addr, data).Some?
    ensures var r := Record(addr, data).value;
            && |r| == 20 && r[0] == ':' && r[19] == '\n' && AllHex(r[1..19])
            && DecodeRecord(r[..19]) == Some(Data(addr, Bytes(data)))
            && Sum(Bytes(r[1..19])) % 0x100 == 0
  {
    hide Format, Bytes, ConvHexlist, SplitN;
    AddressText(addr);
    var place, bytes := Bytes(Format(addr, 4)), Bytes(data);
    ConvIsBytes(data);
    ConvIsBytes(Format(addr, 4));
    var checksum := (0 - (4 + Sum(place) + 0 + Sum(bytes))) % 0x100;
    ByteText(checksum);
    var r := Record(addr, data).value;
    var body := "04" + Format(addr, 4) + "00" + data + Format(checksum, 2);
    assert r == ":" + body + "\n";
    assert r[..19] == ":" + body && r[1..19] == body && (":" + body)[1..] == body;
    BodyBytes(Format(addr, 4), data, Format(checksum, 2));
    var b := Bytes(body);
    assert b == [4] + place + [0] + bytes + [checksum];
    assert b[4..|b| - 1] == bytes;
    assert Sum(b) % 0x100 == 0 by {
      SumConcat([4] + place + [0] + bytes, [checksum]);
      SumConcat([4] + place + [0], bytes);
      SumConcat([4] + place, [0]);
      SumConcat([4], place);
      SumSingle(4); SumSingle(0); SumSingle(checksum);
    }
  }

  lemma SumSingle(n: int)
    ensures Sum([n]) == n
  {
  }

  lemma BodyBytes(place: string, data: string, checksum: string)
    requires AllHex(place) && AllHex(data) && AllHex(checksum)
    requires |place| == 4 && |data| == 8 && |checksum| == 2
    ensures var body := "04" + place + "00" + data + checksum;
            AllHex(body) && |body| == 18
            && Bytes(body) == [4] + Bytes(place) + [0] + Bytes(data) + Bytes(checksum)
  {
    assert "04"[2..] == "" && "00"[2..] == "";
    assert Bytes("04") == [4] && Bytes("00") == [0];
    BytesConcat("04", place);
    BytesConcat("04" + place, "00");
    BytesConcat("04" + place + "00", data);
    BytesConcat("04" + place + "00" + data, checksum);
  }

  /** A text whose first line is known decodes line by line. */
  lemma DecodeFirst(line: string, rest: string)
    requires '\n' !in line
    ensures LineEnd(line + "\n" + rest, 0) == |line|
    ensures (line + "\n" + rest)[..|line|] == line && (line + "\n" + rest)[|line| + 1..] == rest
  {
    var s := line + "\n" + rest;
    assert s[|line|] == '\n';
    assert forall i :: 0 <= i < |line| ==> s[i] == line[i];
  }

  lemma OnePair(c: char, d: char)
    requires IsHex(c) && IsHex(d)
    ensures AllHex([c, d]) && Bytes([c, d]) == [Nibble(c) * 16 + Nibble(d)]
  {
    assert [c, d][2..] == "";
  }

  lemma EofBytes()
    ensures AllHex("00000001FF") && Bytes("00000001FF") == [0, 0, 0, 1, 255]
    ensures Sum([0, 0, 0, 1, 255]) == 256
  {
    hide Bytes;
    var zero := "00";
    OnePair('0', '0');
    OnePair('0', '1');
    OnePair('F', 'F');
    assert Bytes(zero) == [0] && Bytes("01") == [1] && Bytes("FF") == [255];
    BytesConcat(zero, zero);
    BytesConcat("0000", zero);
    BytesConcat("000000", "01");
    BytesConcat("00000001", "FF");
    assert "0000" == zero + zero && "000000" == "0000" + zero && "00000001" == "000000" + "01";
    assert "00000001FF" == "00000001" + "FF";
  }

  lemma EofDecodes()
    ensures DecodeRecord(EOF_RECORD) == Some(EndOfFile)
    ensures Decode(EOF_RECORD + "\n") == Some([])
  {
    var s := EOF_RECORD[1..];
    EofBytes();
    assert s == "00000001FF";
    DecodeFirst(EOF_RECORD, "");
    assert EOF_RECORD + "\n" + "" == EOF_RECORD + "\n";
  }

  /** The whole pairs of a text; a last odd character is dropped. */
  function Pairs(s: string): string { s[..|s| / 2 * 2] }

  lemma PairsValue(s: string)
    requires AllHex(s)
    ensures AllHex(Pairs(s)) && |Pairs(s)| % 2 == 0
    ensures ConvHexlist(SplitN(s, 2)) == Some(Bytes(Pairs(s)))
  {
    var even := Pairs(s);
    assert SplitN(s, 2) == SplitN(even, 2) by {
      assert |even| / 2 == |s| / 2;
      forall i | 0 <= i < |s| / 2 ensures SplitN(s, 2)[i] == SplitN(even, 2)[i] {
        assert SplitN(s, 2)[i] == s[i * 2..i * 2 + 2];
        assert SplitN(even, 2)[i] == even[i * 2..i * 2 + 2];
        assert s[i * 2..i * 2 + 2] == even[i * 2..i * 2 + 2];
      }
    }
    ConvIsBytes(even);
  }

  lemma RecordWritten(addr: nat, data: string)
    requires AllHex(data)
    ensures Record(addr, data).Some?
  {
    hide Format, ConvHexlist, SplitN, Sum, AllHex;
    PairsValue(data);
    PairsValue(Format(addr, 4));
  }

  /** The line of a record: its mark, the byte count 4 and hex digits around the data. */
  lemma RecordShape(addr: nat, data: string)
    requires Record(addr, data).Some?
    ensures var r := Record(addr, data).value;
            && |r| == |Format(addr, 4)| + |data| + 8 && r[0] == ':' && r[|r| - 1] == '\n'
            && ('\n' !in data ==> '\n' !in r[..|r| - 1])
            && (AllHex(r[1..|r| - 1]) <==> AllHex(data)) && r[1] == '0' && r[2] == '4'
  {
    hide Format, ConvHexlist, SplitN, Sum, AllHex;
    var place, bytes := ConvHexlist(SplitN(Format(addr, 4), 2)).value, ConvHexlist(SplitN(data, 2)).value;
    var checksum := (0 - (4 + Sum(place) + 0 + Sum(bytes))) % 0x100;
    ByteText(checksum);
    HexJoin(Format(addr, 4), data, Format(checksum, 2));
    var body := "04" + Format(addr, 4) + "00" + data + Format(checksum, 2);
    var r := Record(addr, data).value;
    assert r == ":" + body + "\n";
    assert r[1..|r| - 1] == body;
    assert r[..|r| - 1] == ":" + body;
  }

  lemma HexJoin(place: string, data: string, checksum: string)
    requires AllHex(place) && AllHex(checksum)
    ensures var body := "04" + place + "00" + data + checksum;
            && (AllHex(body) <==> AllHex(data)) && ('\n' !in data ==> '\n' !in body)
  {
    var body := "04" + place + "00" + data + checksum;
    var k := |place| + 4;
    assert forall i :: 0 <= i < |data| ==> body[k + i] == data[i];
  }

  lemma FirstByte(body: string)
    requires AllHex(body) && |body| % 2 == 0 && |body| >= 2
    ensures Bytes(body)[0] == Nibble(body[0]) * 16 + Nibble(body[1])
  {
  }

  /** The byte count of every record is 4: nothing but twelve digits of address and data decodes. */
  lemma OtherLength(addr: nat, data: string)
    requires Record(addr, data).Some? && !(AllHex(data) && |Format(addr, 4)| + |data| == 12)
    ensures var r := Record(addr, data).value; |r| > 1 && DecodeRecord(r[..|r| - 1]) == None
  {
    hide Format, Record, Bytes, Sum, AllHex;
    RecordShape(addr, data);
    var r := Record(addr, data).value;
    var line := r[..|r| - 1];
    assert line[1..] == r[1..|r| - 1];
    if AllHex(data) && |line[1..]| % 2 == 0 { FirstByte(line[1..]); }
  }

  /** A decoded offset has 16 bits, and a record of four bytes is no end of file. */
  lemma DecodedOffset(s: string)
    requires |s| >= 3 && s[1] == '0' && s[2] == '4'
    ensures DecodeRecord(s).Some? ==> DecodeRecord(s).value.Data? && DecodeRecord(s).value.offset < 0x1_0000
  {
    hide Bytes, Sum, AllHex;
    if DecodeRecord(s).Some? {
      BytesRange(s[1..]);
      FirstByte(s[1..]);
    }
  }

  lemma {:induction false} BytesRange(s: string)
    requires AllHex(s) && |s| % 2 == 0
    ensures forall i :: 0 <= i < |s| / 2 ==> 0 <= Bytes(s)[i] < 0x100
  {
    if s != "" { BytesRange(s[2..]); }
  }

  /** How the record of a line reads: as its data exactly for a word at a four-digit address. */
  lemma RecordLine(addr: nat, data: string)
    requires '\n' !in data
    ensures AllHex(data) ==> Record(addr, data).Some?
    ensures Record(addr, data).Some? ==>
              var r := Record(addr, data).value;
              && |r| > 1 && r[|r| - 1] == '\n' && '\n' !in r[..|r| - 1]
              && var d, word := DecodeRecord(r[..|r| - 1]), AllHex(data) && |data| == 8;
              && (addr < 0x1_0000 && word ==> d == Some(Data(addr, Bytes(data))))
              && ((addr < 0x1_0000) != word ==> d == None)
              && (d.Some? ==> d.value.Data? && d.value.offset < 0x1_0000)
  {
    hide Record, DecodeRecord, Bytes, AllHex, Format;
    if AllHex(data) { RecordWritten(addr, data); }
    if Record(addr, data).Some? {
      RecordShape(addr, data);
      var r := Record(addr, data).value;
      DecodedOffset(r[..|r| - 1]);
      if addr < 0x1_0000 { AddressText(addr); } else { AddressTooLong(addr); }
      if addr < 0x1_0000 && AllHex(data) && |data| == 8 {
        RecordDecodes(addr, data);
        assert r[..19] == r[..|r| - 1];
      } else if addr < 0x1_0000 || (AllHex(data) && |data| == 8) {
        OtherLength(addr, data);
      }
    }
  }

  /**
   * What a decoder needs of address and data: twelve hex digits together, a zero where it takes
   * the record type from, and a sum like the writer's, which drops the odd digit of either.
   */
  predicate Readable(addr: nat, data: string) {
    var place := Format(addr, 4);
    && AllHex(data) && |place| + |data| == 12
    && var b := Bytes("04" + place + "00" + data);
    && b[3] == 0 && Sum(b) % 0x100 == (4 + Sum(Bytes(Pairs(place))) + Sum(Bytes(Pairs(data)))) % 0x100
  }

  lemma RecordReadable(addr: nat, data: string)
    requires Record(addr, data).Some?
    ensures var r := Record(addr, data).value;
            |r| > 1 && (DecodeRecord(r[..|r| - 1]).Some? <==> Readable(addr, data))
  {
    hide Format, Bytes, Sum, AllHex, Record, Pairs, DecodeRecord, Readable;
    RecordShape(addr, data);
    ReadableParts(addr, data);
    if AllHex(data) && |Format(addr, 4)| + |data| == 12 {
      var place := Format(addr, 4);
      PairsValue(place);
      PairsValue(data);
      HexText(place, data);
      var text := "04" + place + "00" + data;
      var sum := 4 + Sum(Bytes(Pairs(place))) + 0 + Sum(Bytes(Pairs(data)));
      RecordIs(addr, data, sum);
      LineReads(text, (0 - sum) % 0x100);
      SameRest(Sum(Bytes(text)), sum);
    } else {
      OtherLength(addr, data);
    }
  }

  lemma ReadableParts(addr: nat, data: string)
    ensures Readable(addr, data) ==> AllHex(data) && |Format(addr, 4)| + |data| == 12
    ensures AllHex(data) && |Format(addr, 4)| + |data| == 12 ==>
              && AllHex("04" + Format(addr, 4) + "00" + data)
              && AllHex(Pairs(data)) && AllHex(Pairs(Format(addr, 4)))
              && var b := Bytes("04" + Format(addr, 4) + "00" + data);
              (Readable(addr, data) <==>
                 b[3] == 0
                 && Sum(b) % 0x100 == (4 + Sum(Bytes(Pairs(Format(addr, 4)))) + 0 + Sum(Bytes(Pairs(data)))) % 0x100)
  {
    hide Format, Bytes, Sum;
  }

  lemma RecordIs(addr: nat, data: string, sum: int)
    requires Record(addr, data).Some? && AllHex(data)
    requires AllHex(Pairs(data)) && AllHex(Pairs(Format(addr, 4)))
    requires sum == 4 + Sum(Bytes(Pairs(Format(addr, 4)))) + 0 + Sum(Bytes(Pairs(data)))
    ensures var r := Record(addr, data).value;
            |r| > 1 && r[..|r| - 1] == ":" + ("04" + Format(addr, 4) + "00" + data + Format((0 - sum) % 0x100, 2))
  {
    hide Format, Bytes, Sum, AllHex, ConvHexlist, SplitN, Pairs;
    PairsValue(Format(addr, 4));
    PairsValue(data);
    var line := ":" + ("04" + Format(addr, 4) + "00" + data + Format((0 - sum) % 0x100, 2));
    assert Record(addr, data).value == line + "\n";
  }

  /** A line of sixteen digits, the byte count 4 first, and a checksum. */
  lemma LineReads(text: string, checksum: nat)
    requires AllHex(text) && |text| == 16 && text[0] == '0' && text[1] == '4' && checksum < 0x100
    ensures DecodeRecord(":" + (text + Format(checksum, 2))).Some? <==>
              Bytes(text)[3] == 0 && (Sum(Bytes(text)) + checksum) % 0x100 == 0
  {
    hide Format, Bytes, Sum, AllHex;
    ByteText(checksum);
    BytesConcat(text, Format(checksum, 2));
    SumConcat(Bytes(text), [checksum]);
    SumSingle(checksum);
    FirstByte(text);
    var s := ":" + (text + Format(checksum, 2));
    assert s[1..] == text + Format(checksum, 2);
  }

  lemma HexText(place: string, data: string)
    requires AllHex(place) && AllHex(data)
    ensures AllHex("04" + place + "00" + data)
  {
  }

  /** With a four-digit address exactly the words can be read. */
  lemma ReadableNear(addr: nat, data: string)
    requires '\n' !in data
    ensures addr < 0x1_0000 ==> (Readable(addr, data) <==> AllHex(data) && |data| == 8)
    ensures addr >= 0x1_0000 && AllHex(data) && |data| == 8 ==> !Readable(addr, data)
  {
    hide Readable, Record, DecodeRecord;
    RecordLine(addr, data);
    if Record(addr, data).Some? { RecordReadable(addr, data); }
    assert Readable(addr, data) ==> AllHex(data) by { ReadableHex(addr, data); }
  }

  lemma ReadableHex(addr: nat, data: string)
    ensures Readable(addr, data) ==> AllHex(data)
  {
  }

  /** What reading a line of a text file gives: a line feed, if any, comes last. */
  predicate IsLine(line: string) { forall i :: 0 <= i < |line| - 1 ==> line[i] != '\n' }

  lemma {:induction false} StripLine(line: string)
    requires IsLine(line)
    ensures '\n' !in Strip(line)
    decreases |line|
  {
    if line != "" {
      if IsSpace(line[0]) {
        StripLine(line[1..]);
      } else if IsSpace(line[|line| - 1]) {
        StripLine(line[..|line| - 1]);
      }
    }
  }

  /** What a reader of the written file gets; None if nothing is written or it does not decode. */
  function Recovered(lines: seq<string>, addr: nat): Option<seq<Rec>> {
    var out := Records(lines, addr);
    if out.None? then None else Decode(out.value + EOF_RECORD + "\n")
  }

  /** The first line's record in front of the rest. */
  lemma RecoveredStep(lines: seq<string>, addr: nat)
    requires lines != [] && IsLine(lines[0])
    ensures var data, rest := Strip(lines[0]), Recovered(lines[1..], addr + 1);
            var r, word := Recovered(lines, addr), WordLine(lines[0]);
            && (r.Some? <==> rest.Some? && Readable(addr, data))
            && (r.Some? ==> exists d: Rec ::
                              && r.value == [d] + rest.value && d.Data? && d.offset < 0x1_0000
                              && (addr < 0x1_0000 ==> word && d == Data(addr, Bytes(data)))
                              && (word ==> addr < 0x1_0000))
            && (addr < 0x1_0000 && word && rest.Some? ==> r.Some?)
  {
    hide DecodeRecord, Record, Strip, Bytes, AllHex, Readable;
    var data := Strip(lines[0]);
    StripLine(lines[0]);
    RecordLine(addr, data);
    var first, others := Record(addr, data), Records(lines[1..], addr + 1);
    ReadableHex(addr, data);
    if first.Some? { RecordReadable(addr, data); }
    if first.Some? && others.Some? {
      JoinRest(first.value, others.value);
      DecodeFirst(first.value[..|first.value| - 1], others.value + EOF_RECORD + "\n");
    }
  }

  lemma RecoveredNone(addr: nat)
    ensures Recovered([], addr) == Some([])
  {
    EofDecodes();
    assert "" + EOF_RECORD + "\n" == EOF_RECORD + "\n";
  }

  /**
   * For all lines: the file written decodes exactly when every line can be read at its address.
   * While the addresses fit their four digits that means that every line holds eight digits,
   * and the data is the lines' bytes at consecutive addresses. If every line holds eight digits,
   * it means that the addresses fit.
   */
  lemma {:induction false} HexRoundTrip(lines: seq<string>, addr: nat)
    requires forall l :: l in lines ==> IsLine(l)
    ensures var r := Recovered(lines, addr);
            var words := forall l :: l in lines ==> WordLine(l);
            var fits := lines == [] || addr + |lines| <= 0x1_0000;
            && (r.Some? <==> forall i :: 0 <= i < |lines| ==> Readable(addr + i, Strip(lines[i])))
            && (fits ==> (r.Some? <==> words))
            && (words ==> (r.Some? <==> fits))
            && (r.Some? && fits ==> r.value == Image(lines, addr))
    decreases |lines|
  {
    hide Recovered, WordLine, IsLine, Bytes, Readable, Strip;
    if lines == [] {
      RecoveredNone(addr);
    } else {
      assert lines == [lines[0]] + lines[1..];
      HexRoundTrip(lines[1..], addr + 1);
      RecoveredStep(lines, addr);
      ReadableStep(lines, addr);
    }
  }

  lemma ReadableStep(lines: seq<string>, addr: nat)
    requires lines != []
    ensures (forall i :: 0 <= i < |lines| ==> Readable(addr + i, Strip(lines[i]))) <==>
              && Readable(addr, Strip(lines[0]))
              && forall i :: 0 <= i < |lines[1..]| ==> Readable(addr + 1 + i, Strip(lines[1..][i]))
  {
    hide Readable, Strip;
    if Readable(addr, Strip(lines[0]))
       && forall i :: 0 <= i < |lines[1..]| ==> Readable(addr + 1 + i, Strip(lines[1..][i]))
    {
      forall i | 0 <= i < |lines| ensures Readable(addr + i, Strip(lines[i])) {
        if i > 0 { assert Readable(addr + 1 + (i - 1), Strip(lines[1..][i - 1])); }
      }
    }
    if forall i :: 0 <= i < |lines| ==> Readable(addr + i, Strip(lines[i])) {
      assert Readable(addr + 0, Strip(lines[0]));
      forall i | 0 <= i < |lines[1..]| ensures Readable(addr + 1 + i, Strip(lines[1..][i])) {
        assert Readable(addr + (i + 1), Strip(lines[i + 1]));
      }
    }
  }

  /**
   * Behind the first 65536 words, up to five address digits: a line can only be read if it holds
   * seven digits at an address that ends in 0 and its digits happen to make up the checksum.
   */
  lemma ReadableFar(addr: nat, data: string)
    requires 0x1_0000 <= addr < 0x10_0000
    ensures Readable(addr, data) <==>
              && AllHex(data) && |data| == 7 && addr % 16 == 0
              && (15 * (Nibble(data[1]) + Nibble(data[3]) + Nibble(data[5])
                        - Nibble(data[0]) - Nibble(data[2]) - Nibble(data[4])) + Nibble(data[6])) % 0x100 == 0
  {
    hide Format, Bytes, Sum, Nibble, Pairs, AllHex;
    FiveDigits(addr);
    if AllHex(data) && |data| == 7 {
      var p := Format(addr, 4);
      PairsValue(p);
      PairsValue(data);
      FarBytes(p, data);
      FarSum(data);
      SameRest(Sum(Bytes("04" + p + "00" + data)), 4 + Sum(Bytes(Pairs(p))) + Sum(Bytes(Pairs(data))));
    }
  }

  lemma SameRest(x: int, y: int)
    ensures x % 0x100 == y % 0x100 <==> (x - y) % 0x100 == 0
  {
  }

  lemma FiveDigits(n: nat)
    requires 0x1_0000 <= n < 0x10_0000
    ensures |Format(n, 4)| == 5 && Nibble(Format(n, 4)[4]) == n % 16
  {
    assert Pow(16, 4) == 0x1_0000 && Pow(16, 5) == 0x10_0000;
    HexLength(n, 4);
    HexLength(n, 5);
  }

  lemma FarBytes(p: string, d: string)
    requires AllHex(p) && |p| == 5 && AllHex(d) && |d| == 7
    ensures AllHex(Pairs(p)) && |Pairs(p)| == 4 && AllHex("04" + p + "00" + d)
    ensures var b := Bytes("04" + p + "00" + d);
            && b[3] == 16 * Nibble(p[4])
            && Sum(b) == 4 + Sum(Bytes(Pairs(p))) + 16 * Nibble(p[4]) + Nibble(d[0]) + 16 * Nibble(d[1])
                         + Nibble(d[2]) + 16 * Nibble(d[3]) + Nibble(d[4]) + 16 * Nibble(d[5]) + Nibble(d[6])
  {
    hide Bytes, Sum;
    var h, q, w := "04", Pairs(p), [p[4], '0'];
    var u, v := ['0', d[0], d[1], d[2]], [d[3], d[4], d[5], d[6]];
    assert h + p + "00" + d == h + q + w + u + v;
    OnePair('0', '4');
    OnePair(p[4], '0');
    TwoPairs('0', d[0], d[1], d[2]);
    TwoPairs(d[3], d[4], d[5], d[6]);
    BytesConcat(h, q);
    BytesConcat(h + q, w);
    BytesConcat(h + q + w, u);
    BytesConcat(h + q + w + u, v);
    SumParts([4], Bytes(q), Bytes(w), Bytes(u), Bytes(v));
    SumSingle(4);
    SumSingle(16 * Nibble(p[4]));
    SumTwo(Nibble(d[0]), Nibble(d[1]) * 16 + Nibble(d[2]));
    SumTwo(Nibble(d[3]) * 16 + Nibble(d[4]), Nibble(d[5]) * 16 + Nibble(d[6]));
  }

  lemma SumParts(a: seq<int>, b: seq<int>, c: seq<int>, d: seq<int>, e: seq<int>)
    ensures Sum(a + b + c + d + e) == Sum(a) + Sum(b) + Sum(c) + Sum(d) + Sum(e)
  {
    SumConcat(a + b + c + d, e);
    SumConcat(a + b + c, d);
    SumConcat(a + b, c);
    SumConcat(a, b);
  }

  lemma SumTwo(x: int, y: int)
    ensures Sum([x, y]) == x + y
  {
    SumConcat([x], [y]);
    SumSingle(x);
    SumSingle(y);
    assert [x] + [y] == [x, y];
  }

  lemma FarSum(d: string)
    requires AllHex(d) && |d| == 7
    ensures AllHex(Pairs(d)) && |Pairs(d)| == 6
    ensures Sum(Bytes(Pairs(d))) == 16 * Nibble(d[0]) + Nibble(d[1]) + 16 * Nibble(d[2]) + Nibble(d[3])
                                    + 16 * Nibble(d[4]) + Nibble(d[5])
  {
    hide Bytes, Sum;
    var u, v := [d[0], d[1], d[2], d[3]], [d[4], d[5]];
    assert Pairs(d) == u + v;
    TwoPairs(d[0], d[1], d[2], d[3]);
    OnePair(d[4], d[5]);
    BytesConcat(u, v);
    SumConcat(Bytes(u), Bytes(v));
    SumTwo(Nibble(d[0]) * 16 + Nibble(d[1]), Nibble(d[2]) * 16 + Nibble(d[3]));
    SumSingle(Nibble(d[4]) * 16 + Nibble(d[5]));
  }

  lemma TwoPairs(a: char, b: char, c: char, d: char)
    requires IsHex(a) && IsHex(b) && IsHex(c) && IsHex(d)
    ensures AllHex([a, b, c, d]) && Bytes([a, b, c, d]) == [Nibble(a) * 16 + Nibble(b), Nibble(c) * 16 + Nibble(d)]
  {
    OnePair(a, b);
    OnePair(c, d);
    BytesConcat([a, b], [c, d]);
    assert [a, b] + [c, d] == [a, b, c, d];
  }

  // ---- Which lines are written ----

  /** Every whole pair of the line is a number. */
  predicate Writable(data: string) {
    forall i :: 0 <= i < |SplitN(data, 2)| ==> PieceValue(SplitN(data, 2)[i]).Some?
  }

  lemma {:induction false} ConvExactly(list: seq<string>)
    ensures ConvHexlist(list).Some? <==> forall i :: 0 <= i < |list| ==> PieceValue(list[i]).Some?
  {
    hide PieceValue;
    if list != [] {
      ConvExactly(list[1..]);
      assert forall i :: 0 <= i < |list| - 1 ==> list[1..][i] == list[i + 1];
      assert list == [list[0]] + list[1..];
    }
  }

  /** Which pairs are numbers: two hex digits, or one behind a sign or beside a blank. */
  lemma PieceExactly(c: char, d: char)
    ensures PieceValue([c, d]) ==
            if IsHex(c) && IsHex(d) then Some(16 * Nibble(c) + Nibble(d))
            else if IsHex(d) && (c == '+' || c == ' ' || 9 <= c as int <= 13) then Some(Nibble(d))
            else if IsHex(d) && c == '-' then Some(0 - Nibble(d))
            else if IsHex(c) && (d == ' ' || 9 <= d as int <= 13) then Some(Nibble(c))
            else None
  {
    hide Nibble, Strip, HexValue, AllHex;
    StripPair(c, d);
    HexValueOne(c);
    HexValueOne(d);
    HexValueTwo(c, d);
    assert [c, d][1..] == [d] && [c][1..] == "" && [d][1..] == "";
  }

  lemma StripPair(c: char, d: char)
    ensures Strip([c, d]) == (if !IsSpace(c) && !IsSpace(d) then [c, d]
                              else if !IsSpace(c) then [c] else if !IsSpace(d) then [d] else "")
  {
    StripOne(c);
    StripOne(d);
    assert [c, d][1..] == [d] && [c, d][..1] == [c];
  }

  lemma StripOne(c: char)
    ensures Strip([c]) == if IsSpace(c) then "" else [c]
  {
    assert [c][1..] == "" && Strip("") == "";
  }

  lemma HexValueOne(c: char)
    ensures AllHex([c]) <==> IsHex(c)
    ensures IsHex(c) ==> HexValue([c]) == Nibble(c)
  {
    assert [c][..0] == "" && [c][0] == c;
  }

  lemma HexValueTwo(c: char, d: char)
    ensures AllHex([c, d]) <==> IsHex(c) && IsHex(d)
    ensures IsHex(c) && IsHex(d) ==> HexValue([c, d]) == 16 * Nibble(c) + Nibble(d)
  {
    assert [c, d][0] == c && [c, d][1] == d && [c, d][..1] == [c];
    HexValueOne(c);
  }

  /** The writer fails exactly at a line with a pair that is no number, never at an address. */
  lemma {:induction false} WrittenExactly(lines: seq<string>, addr: nat)
    ensures Records(lines, addr).Some? <==> forall l :: l in lines ==> Writable(Strip(l))
  {
    hide Record, Strip, Writable;
    if lines != [] {
      RecordExactly(addr, Strip(lines[0]));
      WrittenExactly(lines[1..], addr + 1);
      assert lines[0] in lines && forall l :: l in lines <==> l == lines[0] || l in lines[1..];
    }
  }

  lemma RecordExactly(addr: nat, data: string)
    ensures Record(addr, data).Some? <==> Writable(data)
  {
    hide Format, ConvHexlist, SplitN, Sum, AllHex, PieceValue;
    PairsValue(Format(addr, 4));
    ConvExactly(SplitN(data, 2));
  }

  /** Record i is a data record for address addr + i. */
  predicate Placed(rs: seq<Rec>, addr: nat) {
    forall i :: 0 <= i < |rs| ==> rs[i].Data? && rs[i].offset == addr + i
  }

  /**
   * For all lines, whatever they hold and however many: the file is written and decodes to data
   * at the lines' own addresses exactly when every line holds eight digits and every address
   * fits four, and then the data is the lines' bytes.
   */
  lemma {:induction false} HexRecovers(lines: seq<string>, addr: nat)
    requires forall l :: l in lines ==> IsLine(l)
    ensures var r := Recovered(lines, addr);
            var words := forall l :: l in lines ==> WordLine(l);
            && (r.Some? && Placed(r.value, addr) <==> words && (lines == [] || addr + |lines| <= 0x1_0000))
            && (r.Some? && Placed(r.value, addr) ==> words && r.value == Image(lines, addr))
    decreases |lines|
  {
    hide Recovered, WordLine, IsLine, Bytes, Placed;
    if lines == [] {
      RecoveredNone(addr);
      assert Placed([], addr) by { PlacedNone(addr); }
    } else {
      assert lines == [lines[0]] + lines[1..];
      HexRecovers(lines[1..], addr + 1);
      RecoveredStep(lines, addr);
      var r, rest := Recovered(lines, addr), Recovered(lines[1..], addr + 1);
      if r.Some? { PlacedStep(r.value[0], rest.value, addr); }
    }
  }

  lemma PlacedNone(addr: nat)
    ensures Placed([], addr)
  {
  }

  lemma PlacedStep(r: Rec, rs: seq<Rec>, addr: nat)
    ensures Placed([r] + rs, addr) <==> r.Data? && r.offset == addr && Placed(rs, addr + 1)
  {
    if Placed([r] + rs, addr) {
      assert ([r] + rs)[0] == r;
      forall i | 0 <= i < |rs| ensures rs[i].Data? && rs[i].offset == addr + 1 + i {
        assert ([r] + rs)[i + 1] == rs[i];
      }
    }
  }

  lemma JoinRest(r: string, rest: string)
    requires r != "" && r[|r| - 1] == '\n'
    ensures (r + rest) + EOF_RECORD + "\n" == r[..|r| - 1] + "\n" + (rest + EOF_RECORD + "\n")
  {
  }

  // ---- The same in plain text ----

  /** The hex digits of either case and their values. */
  lemma HexDigits(n: nat, c: char)
    requires n < 16
    ensures var lower, upper := "0123456789abcdef"[n], "0123456789ABCDEF"[n];
            IsHex(lower) && Nibble(lower) == n && IsHex(upper) && Nibble(upper) == n
    ensures IsHex(c) ==> c == "0123456789abcdef"[Nibble(c)] || c == "0123456789ABCDEF"[Nibble(c)]
  {
  }

  /** Blanks and line ends. */
  ghost predicate IsBlank(t: string) {
    forall i :: 0 <= i < |t| ==> t[i] == ' ' || 9 <= t[i] as int <= 13
  }

  /** Not blank at either end. */
  ghost predicate IsTrimmed(w: string) {
    w != "" ==> !IsBlank(w[..1]) && !IsBlank(w[|w| - 1..])
  }

  /** Every line is its stripped text between blanks. */
  lemma {:induction false} StripParts(line: string) returns (a: string, b: string)
    ensures line == a + Strip(line) + b && IsBlank(a) && IsBlank(b) && IsTrimmed(Strip(line))
    decreases |line|
  {
    hide IsBlank, IsTrimmed;
    a, b := "", "";
    Trimmed(line);
    if line != "" && IsSpace(line[0]) {
      a, b := StripParts(line[1..]);
      BlankJoin([line[0]], a);
      assert line == ([line[0]] + a) + Strip(line) + b;
      a := [line[0]] + a;
    } else if line != "" && IsSpace(line[|line| - 1]) {
      a, b := StripParts(line[..|line| - 1]);
      BlankJoin(b, [line[|line| - 1]]);
      assert line == a + Strip(line) + (b + [line[|line| - 1]]);
      b := b + [line[|line| - 1]];
    } else {
      assert line == "" + line + "";
    }
  }

  lemma BlankJoin(a: string, b: string)
    ensures IsBlank(a) && IsBlank(b) ==> IsBlank(a + b)
    ensures |a| == 1 && IsSpace(a[0]) ==> IsBlank(a)
    ensures |b| == 1 && IsSpace(b[0]) ==> IsBlank(b)
  {
  }

  lemma Trimmed(line: string)
    ensures line == "" || (!IsSpace(line[0]) && !IsSpace(line[|line| - 1])) ==> IsTrimmed(line)
    ensures IsBlank("")
  {
    if line != "" { assert line[..1][0] == line[0] && line[|line| - 1..][0] == line[|line| - 1]; }
  }

  /** And a text that is not blank at its ends is what is left when blanks stand around it. */
  lemma StripExactly(a: string, w: string, b: string)
    requires IsBlank(a) && IsBlank(b) && IsTrimmed(w)
    ensures Strip(a + w + b) == w
  {
    hide Strip, IsTrimmed, IsBlank;
    assert a + w + b == a + (w + b);
    StripLeft(a, w + b);
    if w == "" {
      assert w + b == b + "";
      StripLeft(b, "");
      StripNothing();
    } else {
      StripRight(w, b);
    }
  }

  lemma StripNothing()
    ensures Strip("") == ""
  {
  }

  lemma {:induction false} StripLeft(a: string, s: string)
    requires IsBlank(a)
    ensures Strip(a + s) == Strip(s)
    decreases |a|
  {
    if a == "" {
      assert a + s == s;
    } else {
      assert (a + s)[1..] == a[1..] + s && (a + s)[0] == a[0];
      StripLeft(a[1..], s);
    }
  }

  lemma {:induction false} StripRight(w: string, b: string)
    requires IsBlank(b) && IsTrimmed(w) && w != ""
    ensures Strip(w + b) == w
    decreases |b|
  {
    var s := w + b;
    assert s[0] == w[..1][0];
    if b == "" {
      assert s == w && w[|w| - 1..][0] == w[|w| - 1];
    } else {
      assert s[..|s| - 1] == w + b[..|b| - 1];
      StripRight(w, b[..|b| - 1]);
    }
  }

  lemma HexTrimmed(w: string)
    requires AllHex(w)
    ensures IsTrimmed(w)
  {
    if w != "" { assert w[..1][0] == w[0] && w[|w| - 1..][0] == w[|w| - 1]; }
  }

  type HexWord = w: string | |w| == 8 && AllHex(w) witness "00000000"

  /** The bytes that eight hex digits spell. */
  function FourBytes(w: HexWord): seq<int> {
    [16 * Nibble(w[0]) + Nibble(w[1]), 16 * Nibble(w[2]) + Nibble(w[3]),
     16 * Nibble(w[4]) + Nibble(w[5]), 16 * Nibble(w[6]) + Nibble(w[7])]
  }

  lemma WordBytes(w: HexWord)
    ensures Bytes(w) == FourBytes(w)
  {
    hide Nibble, Bytes;
    TwoPairs(w[0], w[1], w[2], w[3]);
    TwoPairs(w[4], w[5], w[6], w[7]);
    BytesConcat(w[..4], w[4..]);
    assert w[..4] == [w[0], w[1], w[2], w[3]] && w[4..] == [w[4], w[5], w[6], w[7]];
    assert w[..4] + w[4..] == w;
  }

  /**
   * The record of a word, character by character: lower-case digits for address and checksum,
   * with which the bytes sum to 0 modulo 256.
   */
  lemma RecordText(addr: nat, w: HexWord)
    requires addr < 0x1_0000
    ensures var hex, b := "0123456789abcdef", FourBytes(w);
            exists c: nat ::
              && c < 0x100 && (4 + addr / 0x100 + addr % 0x100 + b[0] + b[1] + b[2] + b[3] + c) % 0x100 == 0
              && Record(addr, w) ==
                 Some(":04" + [hex[addr / 0x1000], hex[addr / 0x100 % 16], hex[addr / 0x10 % 16], hex[addr % 16]] + "00"
                      + w + [hex[c / 16], hex[c % 16]] + "\n")
  {
    hide Format, Bytes, ConvHexlist, SplitN, Nibble, AllHex, Sum, FourBytes;
    AddressText(addr);
    AddressDigits(addr);
    ConvIsBytes(w);
    ConvIsBytes(Format(addr, 4));
    WordBytes(w);
    SumTwo(addr / 0x100, addr % 0x100);
    var b := FourBytes(w);
    SumFour(b);
    var sum := 4 + Sum([addr / 0x100, addr % 0x100]) + 0 + Sum(b);
    var c := (0 - sum) % 0x100;
    ByteDigits(c);
    SumsToZero(sum);
    assert ":" + "04" == ":04";
  }

  lemma SumsToZero(n: int)
    ensures (n + (0 - n) % 0x100) % 0x100 == 0
  {
  }

  lemma SumFour(b: seq<int>)
    requires |b| == 4
    ensures Sum(b) == b[0] + b[1] + b[2] + b[3]
  {
    SumTwo(b[0], b[1]);
    SumTwo(b[2], b[3]);
    SumConcat([b[0], b[1]], [b[2], b[3]]);
    assert [b[0], b[1]] + [b[2], b[3]] == b;
  }

  lemma HexCharIs(n: nat)
    requires n < 16
    ensures HexChar(n) == "0123456789abcdef"[n]
  {
  }

  lemma ByteDigits(n: nat)
    requires n < 0x100
    ensures Format(n, 2) == ["0123456789abcdef"[n / 16], "0123456789abcdef"[n % 16]]
  {
    hide HexChar;
    FormatUnfold(n, 2);
    assert Format(n / 16, 1) == [HexChar(n / 16)];
    HexCharIs(n / 16);
    HexCharIs(n % 16);
  }

  lemma AddressDigits(n: nat)
    requires n < 0x1_0000
    ensures var hex := "0123456789abcdef";
            Format(n, 4) == [hex[n / 0x1000], hex[n / 0x100 % 16], hex[n / 0x10 % 16], hex[n % 16]]
  {
    hide Format, HexChar;
    FormatUnfold(n, 4);
    FormatUnfold(n / 16, 3);
    ByteDigits(n / 0x100);
    HexCharIs(n / 16 % 16);
    HexCharIs(n % 16);
    assert n / 16 / 16 == n / 0x100 && n / 0x100 / 16 == n / 0x1000;
  }

  /** The line holds the word w between blanks. */
  ghost predicate Holds(line: string, w: HexWord) {
    exists a, b :: IsBlank(a) && IsBlank(b) && line == a + w + b
  }

  lemma HeldWord(line: string, w: HexWord)
    requires Holds(line, w)
    ensures Strip(line) == w && WordLine(line)
  {
    hide Strip, IsBlank, AllHex;
    var a, b :| IsBlank(a) && IsBlank(b) && line == a + w + b;
    HexTrimmed(w);
    StripExactly(a, w, b);
  }

  /** The lines that can be carried are those that hold a word. */
  lemma WordLineExactly(line: string)
    ensures WordLine(line) <==> exists w: HexWord :: Holds(line, w)
  {
    hide Strip, IsBlank, AllHex;
    if WordLine(line) {
      var a, b := StripParts(line);
      assert Holds(line, Strip(line));
    }
    if w: HexWord :| Holds(line, w) {
      HeldWord(line, w);
    }
  }

  /**
   * For any lines with eight hex digits between blanks, up to 65536 of them: the file is
   * written, ends in the end-of-file record, and decodes to those digits' bytes at the addresses
   * 0, 1, 2, ...
   */
  lemma RawRoundTrip(lines: seq<string>, words: seq<HexWord>)
    requires |words| == |lines| <= 0x1_0000
    requires forall i :: 0 <= i < |lines| ==> IsLine(lines[i]) && Holds(lines[i], words[i])
    ensures Records(lines, 0).Some?
    ensures var r := Decode(Records(lines, 0).value + ":00000001FF\n");
            && r.Some? && |r.value| == |lines|
            && forall i :: 0 <= i < |lines| ==> r.value[i] == Data(i, FourBytes(words[i]))
  {
    hide Records, Decode, Strip, AllHex, IsLine, Bytes, IsBlank, FourBytes, WordLine, Image, Readable;
    forall i | 0 <= i < |lines| ensures Strip(lines[i]) == words[i] && WordLine(lines[i]) {
      HeldWord(lines[i], words[i]);
    }
    HexRoundTrip(lines, 0);
    var file := Records(lines, 0).value;
    assert file + EOF_RECORD + "\n" == file + ":00000001FF\n" by { JoinEnd(file); }
    ImageLength(lines, 0);
    forall i | 0 <= i < |lines| ensures Image(lines, 0)[i] == Data(i, FourBytes(words[i])) {
      ImageAt(lines, 0, i, words[i]);
    }
  }

  lemma JoinEnd(file: string)
    ensures file + EOF_RECORD + "\n" == file + ":00000001FF\n"
  {
  }

  lemma {:induction false} ImageLength(lines: seq<string>, addr: nat)
    requires forall l :: l in lines ==> WordLine(l)
    ensures |Image(lines, addr)| == |lines|
  {
    hide WordLine;
    if lines != [] { ImageLength(lines[1..], addr + 1); }
  }

  lemma {:induction false} ImageAt(lines: seq<string>, addr: nat, i: nat, w: HexWord)
    requires i < |lines| && (forall l :: l in lines ==> WordLine(l)) && Strip(lines[i]) == w
    ensures i < |Image(lines, addr)| && Image(lines, addr)[i] == Data(addr + i, FourBytes(w))
    decreases |lines|
  {
    hide Strip, Bytes, AllHex, FourBytes;
    if i > 0 {
      ImageAt(lines[1..], addr + 1, i - 1, w);
    } else {
      WordBytes(w);
    }
  }
}
