/** The ITCH wire format: a length-framed big-endian stream read through a moving cursor.
    Field widths are those of Nasdaq TotalView-ITCH 5.0. */
module Wire {

  import opened Bytes

  // ---------------------------------------------------------------- messages

  datatype Field = U16 | U32 | U64 | Stamp | Letter | Text(length: nat)

  datatype Value = Number(n: nat) | Char(c: byte) | Chars(s: seq<byte>)

  function Width(f: Field): nat {
    match f
    case U16 => 2
    case U32 => 4
    case U64 => 8
    case Stamp => 6
    case Letter => 1
    case Text(n) => n
  }

  const HEADER: seq<Field> := [U16, U16, Stamp]

  /** The fields each `decode` method reads after the message code, in its order; prices are the raw
      32-bit integers. None for the codes `read_next_message` skips. */
  function Layout(code: byte): seq<Field> {
    if code == 'R' as int then HEADER + [Text(8), Letter, Letter, U32, Letter, Letter, Text(2), Letter, Letter,
                                         Letter, Letter, Letter, U32, Letter]
    else if code == 'A' as int then HEADER + [U64, Letter, U32, Text(8), U32]
    else if code == 'F' as int then HEADER + [U64, Letter, U32, Text(8), U32, Text(4)]
    else if code == 'E' as int then HEADER + [U64, U32, U64]
    else if code == 'C' as int then HEADER + [U64, U32, U64, Letter, U32]
    else if code == 'X' as int then HEADER + [U64, U32]
    else if code == 'D' as int then HEADER + [U64]
    else if code == 'U' as int then HEADER + [U64, U64, U32, U32]
    else if code == 'P' as int then HEADER + [U64, Letter, U32, Text(8), U32, U64]
    else if code == 'Q' as int then HEADER + [U64, Text(8), U32, U64, Letter]
    else if code == 'B' as int then HEADER + [U64]
    else []
  }

  predicate Known(code: byte) {
    Layout(code) != []
  }

  function TotalWidth(fields: seq<Field>): nat {
    if fields == [] then 0 else Width(fields[0]) + TotalWidth(fields[1..])
  }

  /** `message_size` */
  function MessageSize(code: byte): nat {
    1 + TotalWidth(Layout(code))
  }

  datatype Message = Message(code: byte, values: seq<Value>)

  // ---------------------------------------------------------------- fields

  function Lower(b: byte): byte {
    if 'A' as int <= b <= 'Z' as int then b + 32 else b
  }

  function LowerAll(s: seq<byte>): seq<byte> {
    seq(|s|, i requires 0 <= i < |s| => Lower(s[i]))
  }

  /** Lowering leaves no capital, moves letters to their small form only, and is done once and for all. */
  lemma {:induction false} LoweringFolds(s: seq<byte>)
    ensures forall i :: 0 <= i < |s| ==> !('A' as int <= LowerAll(s)[i] <= 'Z' as int)
    ensures forall i :: 0 <= i < |s| && LowerAll(s)[i] != s[i] ==>
              LowerAll(s)[i] - s[i] == 'a' as int - 'A' as int && 'a' as int <= LowerAll(s)[i] <= 'z' as int
    ensures LowerAll(LowerAll(s)) == LowerAll(s)
  {
  }

  /** What a field of the wire means. */
  function Meaning(f: Field, s: seq<byte>): Value {
    match f
    case Letter => if s == [] then Char(0) else Char(s[0])
    case Text(_) => Chars(LowerAll(s))
    case _ => Number(FromBE(s))
  }

  function Meanings(fields: seq<Field>, s: seq<byte>): seq<Value>
    requires TotalWidth(fields) <= |s|
  {
    if fields == [] then []
    else [Meaning(fields[0], s[..Width(fields[0])])] + Meanings(fields[1..], s[Width(fields[0])..])
  }

  /** `nasdaq_timestamp`: six bytes copied into a zeroed little-endian word, shifted up by two bytes,
      and the whole word byte-swapped. */
  function ShiftAndSwap(s: seq<byte>): nat {
    FromLE(Reversed(LE(FromLE(s + [0, 0]) * 0x1_0000 % 0x1_0000_0000_0000_0000, 8)))
  }

  lemma {:induction false} LEOfFromLE(s: seq<byte>)
    ensures LE(FromLE(s), |s|) == s
  {
    if s != [] {
      LEOfFromLE(s[1..]);
      assert FromLE(s) / 256 == FromLE(s[1..]);
      assert s == [s[0]] + s[1..];
    }
  }

  /** `unchecked_decode_integer`: a native little-endian load, then a byte swap. */
  function LoadAndSwap(s: seq<byte>): nat {
    FromLE(Reversed(LE(FromLE(s), |s|)))
  }

  lemma {:induction false} LoadIsBigEndian(s: seq<byte>)
    ensures LoadAndSwap(s) == FromBE(s)
  {
    LEOfFromLE(s);
    FromLEReversed(s);
  }

  lemma {:induction false} TrailingZeros(s: seq<byte>)
    ensures FromLE(s + [0, 0]) == FromLE(s)
  {
    if s == [] {
      assert [0, 0][1..] == [0];
      assert [0][1..] == [];
      assert s + [0, 0] == [0, 0];
    } else {
      assert (s + [0, 0])[1..] == s[1..] + [0, 0];
      TrailingZeros(s[1..]);
    }
  }

  /** The shift-and-swap timestamp is the 48-bit big-endian number. */
  lemma {:induction false} StampIsBigEndian(s: seq<byte>)
    requires |s| == 6
    ensures ShiftAndSwap(s) == FromBE(s)
  {
    hide FromLE, LE, FromBE, Reversed;
    var shifted := [0, 0] + s;
    TrailingZeros(s);
    LeadingZeros(s);
    FromLERange(shifted);
    Powers();
    LEOfFromLE(shifted);
    ReversedShift(s);
    TrailingZeros(Reversed(s));
    FromLEReversed(s);
  }

  lemma {:induction false} LeadingZeros(s: seq<byte>)
    ensures FromLE([0, 0] + s) == FromLE(s) * 0x1_0000
  {
    var shifted := [0, 0] + s;
    assert shifted[1..] == [0] + s && shifted[1..][1..] == s;
  }

  lemma ReversedShift(s: seq<byte>)
    ensures Reversed([0, 0] + s) == Reversed(s) + [0, 0]
  {
  }

  // ---------------------------------------------------------------- where fields lie, and what they are

  /** A big-endian number, one character as it is, or text in lower case. */
  datatype Kind = Integer | Character | Words

  datatype Row = Row(offset: nat, length: nat, kind: Kind)

  /** The fields of the eleven message types, as the ITCH 5.0 message tables give them: offset in the
      message (the code is at 0), length, and kind. No other code has any. */
  function Documented(code: byte): seq<Row> {
    if code == 'R' as int then
      [Row(1, 2, Integer), Row(3, 2, Integer), Row(5, 6, Integer), Row(11, 8, Words), Row(19, 1, Character),
       Row(20, 1, Character), Row(21, 4, Integer), Row(25, 1, Character), Row(26, 1, Character), Row(27, 2, Words),
       Row(29, 1, Character), Row(30, 1, Character), Row(31, 1, Character), Row(32, 1, Character),
       Row(33, 1, Character), Row(34, 4, Integer), Row(38, 1, Character)]
    else if code == 'A' as int then
      [Row(1, 2, Integer), Row(3, 2, Integer), Row(5, 6, Integer), Row(11, 8, Integer), Row(19, 1, Character),
       Row(20, 4, Integer), Row(24, 8, Words), Row(32, 4, Integer)]
    else if code == 'F' as int then
      [Row(1, 2, Integer), Row(3, 2, Integer), Row(5, 6, Integer), Row(11, 8, Integer), Row(19, 1, Character),
       Row(20, 4, Integer), Row(24, 8, Words), Row(32, 4, Integer), Row(36, 4, Words)]
    else if code == 'E' as int then
      [Row(1, 2, Integer), Row(3, 2, Integer), Row(5, 6, Integer), Row(11, 8, Integer), Row(19, 4, Integer),
       Row(23, 8, Integer)]
    else if code == 'C' as int then
      [Row(1, 2, Integer), Row(3, 2, Integer), Row(5, 6, Integer), Row(11, 8, Integer), Row(19, 4, Integer),
       Row(23, 8, Integer), Row(31, 1, Character), Row(32, 4, Integer)]
    else if code == 'X' as int then
      [Row(1, 2, Integer), Row(3, 2, Integer), Row(5, 6, Integer), Row(11, 8, Integer), Row(19, 4, Integer)]
    else if code == 'D' as int then
      [Row(1, 2, Integer), Row(3, 2, Integer), Row(5, 6, Integer), Row(11, 8, Integer)]
    else if code == 'U' as int then
      [Row(1, 2, Integer), Row(3, 2, Integer), Row(5, 6, Integer), Row(11, 8, Integer), Row(19, 8, Integer),
       Row(27, 4, Integer), Row(31, 4, Integer)]
    else if code == 'P' as int then
      [Row(1, 2, Integer), Row(3, 2, Integer), Row(5, 6, Integer), Row(11, 8, Integer), Row(19, 1, Character),
       Row(20, 4, Integer), Row(24, 8, Words), Row(32, 4, Integer), Row(36, 8, Integer)]
    else if code == 'Q' as int then
      [Row(1, 2, Integer), Row(3, 2, Integer), Row(5, 6, Integer), Row(11, 8, Integer), Row(19, 8, Words),
       Row(27, 4, Integer), Row(31, 8, Integer), Row(39, 1, Character)]
    else if code == 'B' as int then
      [Row(1, 2, Integer), Row(3, 2, Integer), Row(5, 6, Integer), Row(11, 8, Integer)]
    else []
  }

  /** The length of a message in those tables. */
  function DocumentedSize(code: byte): nat {
    if code == 'R' as int then 39
    else if code == 'A' as int then 36
    else if code == 'F' as int then 40
    else if code == 'E' as int then 31
    else if code == 'C' as int then 36
    else if code == 'X' as int then 23
    else if code == 'D' as int then 19
    else if code == 'U' as int then 35
    else if code == 'P' as int then 44
    else if code == 'Q' as int then 40
    else if code == 'B' as int then 19
    else 1
  }

  function KindOf(f: Field): Kind {
    match f
    case Letter => Character
    case Text(_) => Words
    case _ => Integer
  }

  /** The row is that of the field, and ends where the next one starts, the last one at the end of the
      message. */
  ghost predicate Fits(fields: seq<Field>, rows: seq<Row>, end: nat, i: nat)
    requires i < |fields| == |rows|
  {
    && rows[i].length == Width(fields[i]) && rows[i].kind == KindOf(fields[i])
    && rows[i].offset + rows[i].length == if i + 1 < |rows| then rows[i + 1].offset else end
  }

  ghost predicate AllFit(fields: seq<Field>, rows: seq<Row>, end: nat) {
    |fields| == |rows| && forall i: nat | i < |fields| :: Fits(fields, rows, end, i)
  }

  lemma {:induction false} LayoutFits(code: byte)
    ensures AllFit(Layout(code), Documented(code), DocumentedSize(code))
    ensures Known(code) ==> Documented(code)[0].offset == 1
  {
    hide Fits;
    forall i: nat | i < |Layout(code)|
      ensures |Layout(code)| == |Documented(code)| && Fits(Layout(code), Documented(code), DocumentedSize(code), i)
    {
      FieldFits(code, i);
    }
  }

  lemma {:induction false} FieldFits(code: byte, i: nat)
    requires i < |Layout(code)|
    ensures |Layout(code)| == |Documented(code)|
    ensures Fits(Layout(code), Documented(code), DocumentedSize(code), i)
  {
    if code == 'R' as int {
      DirectoryFits(i);
    } else if code in ['A' as int, 'F' as int, 'P' as int, 'Q' as int] {
      OrderOrTradeFits(code, i);
    } else {
      OtherFits(code, i);
    }
  }

  lemma {:induction false} DirectoryFits(i: nat)
    requires i < |Layout('R' as int)|
    ensures |Layout('R' as int)| == |Documented('R' as int)|
    ensures Fits(Layout('R' as int), Documented('R' as int), DocumentedSize('R' as int), i)
  {
  }

  lemma {:induction false} OrderOrTradeFits(code: byte, i: nat)
    requires code in ['A' as int, 'F' as int, 'P' as int, 'Q' as int] && i < |Layout(code)|
    ensures |Layout(code)| == |Documented(code)|
    ensures Fits(Layout(code), Documented(code), DocumentedSize(code), i)
  {
  }

  lemma {:induction false} OtherFits(code: byte, i: nat)
    requires code !in ['R' as int, 'A' as int, 'F' as int, 'P' as int, 'Q' as int] && i < |Layout(code)|
    ensures |Layout(code)| == |Documented(code)|
    ensures Fits(Layout(code), Documented(code), DocumentedSize(code), i)
  {
  }

  lemma {:induction false} FitsWidth(fields: seq<Field>, rows: seq<Row>, end: nat)
    requires AllFit(fields, rows, end) && fields != []
    ensures rows[0].offset + TotalWidth(fields) == end
  {
    hide Width;
    assert Fits(fields, rows, end, 0);
    if |fields| > 1 {
      FitsTail(fields, rows, end);
      FitsWidth(fields[1..], rows[1..], end);
    } else {
      assert fields[1..] == [];
    }
  }

  lemma FitsTail(fields: seq<Field>, rows: seq<Row>, end: nat)
    requires AllFit(fields, rows, end) && |fields| > 1
    ensures AllFit(fields[1..], rows[1..], end) && rows[1].offset == rows[0].offset + Width(fields[0])
  {
    hide Width;
    assert Fits(fields, rows, end, 0);
    forall i: nat | i < |fields| - 1
      ensures Fits(fields[1..], rows[1..], end, i)
    {
      assert Fits(fields, rows, end, i + 1);
    }
  }

  lemma SliceOfRest(s: seq<byte>, w: nat, k: nat, n: nat)
    requires w + k + n <= |s|
    ensures s[w..][k..k + n] == s[w + k..w + k + n]
  {
  }

  lemma {:induction false} MeaningAtOffset(fields: seq<Field>, rows: seq<Row>, end: nat, s: seq<byte>, i: nat)
    requires AllFit(fields, rows, end) && i < |fields|
    requires TotalWidth(fields) <= |s|
    ensures i < |Meanings(fields, s)|
    ensures rows[i].length == Width(fields[i]) && rows[i].kind == KindOf(fields[i])
    ensures rows[0].offset <= rows[i].offset && rows[i].offset - rows[0].offset + rows[i].length <= |s|
    ensures var o := rows[i].offset - rows[0].offset;
            Meanings(fields, s)[i] == Meaning(fields[i], s[o..o + rows[i].length])
    decreases i
  {
    hide Meaning, Width, KindOf;
    assert Fits(fields, rows, end, i);
    if i > 0 {
      var w := Width(fields[0]);
      FitsTail(fields, rows, end);
      MeaningAtOffset(fields[1..], rows[1..], end, s[w..], i - 1);
      SliceOfRest(s, w, rows[i].offset - rows[1].offset, rows[i].length);
    }
  }

  lemma MeaningByKind(f: Field, s: seq<byte>)
    requires |s| == Width(f)
    ensures match KindOf(f)
            case Integer => Meaning(f, s) == Number(FromBE(s))
            case Character => |s| == 1 && Meaning(f, s) == Char(s[0])
            case Words => Meaning(f, s) == Chars(LowerAll(s))
  {
  }

  lemma {:induction false} MeaningsLength(fields: seq<Field>, s: seq<byte>)
    requires TotalWidth(fields) <= |s|
    ensures |Meanings(fields, s)| == |fields|
  {
    hide Meaning;
    if fields != [] {
      MeaningsLength(fields[1..], s[Width(fields[0])..]);
    }
  }

  /** The decoded types are the documented ones, and have their lengths. */
  lemma {:induction false} KnownExactly(code: byte)
    ensures Known(code) <==> code in ['R' as int, 'A' as int, 'F' as int, 'E' as int, 'C' as int, 'X' as int,
                                      'D' as int, 'U' as int, 'P' as int, 'Q' as int, 'B' as int]
    ensures Documented(code) != [] <==> Known(code)
    ensures MessageSize(code) == DocumentedSize(code)
  {
    LayoutFits(code);
    if Known(code) {
      FitsWidth(Layout(code), Documented(code), DocumentedSize(code));
    }
  }

  /** What decoding a message gives, row by row of its table: the number, the character or the text that
      lies there (`t` is the message with its code). */
  lemma {:induction false} FieldsWhereDocumented(code: byte, t: seq<byte>, i: nat)
    requires Known(code) && MessageSize(code) <= |t| && i < |Documented(code)|
    ensures var values, row := Meanings(Layout(code), t[1..]), Documented(code)[i];
            && |values| == |Documented(code)| && row.offset + row.length <= |t|
            && (row.kind == Integer ==> values[i] == Number(FromBE(t[row.offset..row.offset + row.length])))
            && (row.kind == Character ==> row.length == 1 && values[i] == Char(t[row.offset]))
            && (row.kind == Words ==> values[i] == Chars(LowerAll(t[row.offset..row.offset + row.length])))
  {
    LayoutFits(code);
    hide Layout, Documented, DocumentedSize, Meaning, Meanings, Width, KindOf;
    var row, fields := Documented(code)[i], Layout(code);
    MeaningAtOffset(fields, Documented(code), DocumentedSize(code), t[1..], i);
    MeaningsLength(fields, t[1..]);
    SliceOfRest(t, 1, row.offset - 1, row.length);
    MeaningByKind(fields[i], t[row.offset..row.offset + row.length]);
  }

  // ---------------------------------------------------------------- decoding

  /** One `unchecked_decode_*` call: no test of the length, the cursor moves by the width. */
  method DecodeField(data: seq<byte>, p: nat, l: nat, f: Field) returns (v: Value, p': nat, l': nat)
    requires p + l <= |data| && Width(f) <= l
    ensures v == Meaning(f, data[p..p + Width(f)])
    ensures p' == p + Width(f) && l' == l - Width(f)
  {
    match f {
      case Letter =>
        v := Char(data[p]);
      case Text(n) =>
        var dest: seq<byte> := [];
        for i := 0 to n
          invariant dest == LowerAll(data[p..p + i])
        {
          dest := dest + [Lower(data[p + i])];
        }
        v := Chars(dest);
      case Stamp =>
        StampIsBigEndian(data[p..p + 6]);
        v := Number(ShiftAndSwap(data[p..p + 6]));
      case U16 | U32 | U64 =>
        LoadIsBigEndian(data[p..p + Width(f)]);
        v := Number(LoadAndSwap(data[p..p + Width(f)]));
    }
    p', l' := p + Width(f), l - Width(f);
  }

  method DecodeFields(data: seq<byte>, p: nat, l: nat, fields: seq<Field>)
    returns (values: seq<Value>, p': nat, l': nat)
    requires p + l <= |data| && TotalWidth(fields) <= l
    ensures p' == p + TotalWidth(fields) && l' == l - TotalWidth(fields)
    ensures values == Meanings(fields, data[p..p + l])
  {
    hide *;
    values, p', l' := [], p, l;
    ghost var all := Meanings(fields, data[p..p + l]);
    assert fields[0..] == fields;
    for i := 0 to |fields|
      invariant p' + l' == p + l && TotalWidth(fields[i..]) <= l'
      invariant p' + TotalWidth(fields[i..]) == p + TotalWidth(fields)
      invariant all == values + Meanings(fields[i..], data[p'..p' + l'])
    {
      var v;
      MeaningsFrom(fields, i, data, p', l');
      ghost var next := Meanings(fields[i + 1..], data[p' + Width(fields[i])..p' + l']);
      v, p', l' := DecodeField(data, p', l', fields[i]);
      assert values + ([v] + next) == values + [v] + next;
      values := values + [v];
    }
    assert fields[|fields|..] == [];
    NoFields(data[p'..p' + l']);
  }

  lemma NoFields(s: seq<byte>)
    ensures TotalWidth([]) == 0 && Meanings([], s) == []
  {
  }

  lemma {:induction false} MeaningsFrom(fields: seq<Field>, i: nat, data: seq<byte>, p: nat, l: nat)
    requires i < |fields| && p + l <= |data| && TotalWidth(fields[i..]) <= l
    ensures TotalWidth(fields[i..]) == Width(fields[i]) + TotalWidth(fields[i + 1..])
    ensures Meanings(fields[i..], data[p..p + l])
         == [Meaning(fields[i], data[p..p + Width(fields[i])])]
            + Meanings(fields[i + 1..], data[p + Width(fields[i])..p + l])
  {
    hide Meaning;
    var w := Width(fields[i]);
    assert fields[i..][0] == fields[i] && fields[i..][1..] == fields[i + 1..];
    assert data[p..p + l][..w] == data[p..p + w] && data[p..p + l][w..] == data[p + w..p + l];
  }

  lemma {:induction false} DecodedRows(data: seq<byte>, p: nat, l: nat, code: byte)
    requires p + l <= |data| && Known(code) && MessageSize(code) <= l
    ensures var values := Meanings(Layout(code), data[p + 1..p + l]);
            |values| == |Documented(code)|
            && forall i :: 0 <= i < |Documented(code)| ==>
                 var row := Documented(code)[i];
                 && row.offset + row.length <= l
                 && (row.kind == Integer ==>
                       values[i] == Number(FromBE(data[p + row.offset..p + row.offset + row.length])))
                 && (row.kind == Character ==> row.length == 1 && values[i] == Char(data[p + row.offset]))
                 && (row.kind == Words ==>
                       values[i] == Chars(LowerAll(data[p + row.offset..p + row.offset + row.length])))
  {
    hide Layout, Meanings, Documented, LowerAll, FromBE, Known;
    var t := data[p..p + l];
    assert 1 + TotalWidth(Layout(code)) <= |t|;
    var values := Meanings(Layout(code), t[1..]);
    assert t[1..] == data[p + 1..p + l];
    RowsExist(code);
    FieldsWhereDocumented(code, t, 0);
    forall i | 0 <= i < |Documented(code)|
      ensures var row := Documented(code)[i];
              && row.offset + row.length <= l
              && (row.kind == Integer ==>
                    values[i] == Number(FromBE(data[p + row.offset..p + row.offset + row.length])))
              && (row.kind == Character ==> row.length == 1 && values[i] == Char(data[p + row.offset]))
              && (row.kind == Words ==>
                    values[i] == Chars(LowerAll(data[p + row.offset..p + row.offset + row.length])))
    {
      FieldsWhereDocumented(code, t, i);
      SliceOfSlice(data, p, l, Documented(code)[i].offset, Documented(code)[i].length);
    }
  }

  lemma RowsExist(code: byte)
    requires Known(code)
    ensures Documented(code) != []
  {
    KnownExactly(code);
  }

  lemma SliceOfSlice(data: seq<byte>, p: nat, l: nat, o: nat, n: nat)
    requires p + l <= |data| && o + n <= l
    ensures data[p..p + l][o..o + n] == data[p + o..p + o + n]
    ensures n > 0 ==> data[p..p + l][o] == data[p + o]
  {
    var a, b := data[p..p + l][o..o + n], data[p + o..p + o + n];
    forall k | 0 <= k < n
      ensures a[k] == b[k]
    {
    }
    assert a == b;
  }

  /** A `decode` method: nothing happens unless the whole message is there. */
  method Decode(data: seq<byte>, p: nat, l: nat, code: byte) returns (ok: bool, values: seq<Value>, p': nat, l': nat)
    requires p + l <= |data| && Known(code)
    ensures ok <==> MessageSize(code) <= l
    ensures ok ==> p' == p + MessageSize(code) && l' == l - MessageSize(code)
    ensures ok ==> values == Meanings(Layout(code), data[p + 1..p + l])
    ensures ok ==> |values| == |Documented(code)| && l >= DocumentedSize(code)
    ensures ok ==> forall i :: 0 <= i < |Documented(code)| ==>
              var row := Documented(code)[i];
              && row.offset + row.length <= l
              && (row.kind == Integer ==>
                    values[i] == Number(FromBE(data[p + row.offset..p + row.offset + row.length])))
              && (row.kind == Character ==> row.length == 1 && values[i] == Char(data[p + row.offset]))
              && (row.kind == Words ==>
                    values[i] == Chars(LowerAll(data[p + row.offset..p + row.offset + row.length])))
    ensures !ok ==> p' == p && l' == l
  {
    KnownExactly(code);
    hide Layout, Meanings, TotalWidth, Documented, DocumentedSize, LowerAll, FromBE;
    ok := MessageSize(code) <= l;
    if ok {
      values, p', l' := DecodeFields(data, p + 1, l - 1, Layout(code));
      DecodedRows(data, p, l, code);
    } else {
      values, p', l' := [], p, l;
    }
  }

  /** What the reader hands over; a message whose `decode` failed has never been filled. */
  datatype Slot = Filled(message: Message) | Unfilled(code: byte)

  class ReadStatus {
    var stall: nat
    var loaded: nat
    var skipped: nat
    var read: nat

    function Counts(): Counters
      reads this
    {
      Counters(loaded, skipped, read)
    }
  }

  datatype Counters = Counters(loaded: nat, skipped: nat, read: nat)

  class MessageQueue {
    var slots: seq<Slot>
  }

  /** The bytes not yet read, the counters and the queue after a read; `more` is its answer. */
  datatype Reading = Reading(more: bool, rest: seq<byte>, counts: Counters, slots: seq<Slot>)

  /** The message code is read without a test that a byte is left. */
  predicate HasCode(s: seq<byte>) {
    |s| == 2 ==> s != [0, 0]
  }

  /** A message of a decoded type, whatever its frame says about its length. */
  function ReadKnown(t: seq<byte>, size: nat, c: Counters, q: seq<Slot>): Reading
    requires t != [] && Known(t[0])
  {
    var counts := c.(loaded := c.loaded + size, read := c.read + 1);
    if |t| < MessageSize(t[0]) then Reading(true, t, counts, q + [Unfilled(t[0])])
    else
      Reading(true, t[MessageSize(t[0])..], counts,
              q + [Filled(Message(t[0], Meanings(Layout(t[0]), t[1..])))])
  }

  function ReadNext(s: seq<byte>, c: Counters, q: seq<Slot>): Reading
    requires HasCode(s)
  {
    if |s| < 2 then Reading(false, s, c, q)
    else
      var size, t := FromBE(s[..2]), s[2..];
      SizeOfPair(s);
      if |t| < size then Reading(false, t, c, q)
      else if Known(t[0]) then ReadKnown(t, size, c, q)
      else Reading(true, t[size..], c.(skipped := c.skipped + 1), q)
  }

  /** One read, case by case, in terms of the bytes: too few for a length; too few for the frame; a type
      that is skipped; a decoded type, whose message may be longer than what is left. */
  lemma {:induction false} ReadCases(s: seq<byte>, c: Counters, q: seq<Slot>)
    requires HasCode(s)
    ensures |s| < 2 ==> ReadNext(s, c, q) == Reading(false, s, c, q)
    ensures |s| >= 2 ==>
              var r, size := ReadNext(s, c, q), (s[0] as int) * 256 + s[1] as int;
              && (size > |s| - 2 ==> r == Reading(false, s[2..], c, q))
              && (size <= |s| - 2 ==> |s| > 2)
              && (size <= |s| - 2 && Documented(s[2]) == [] ==>
                    r == Reading(true, s[2 + size..], Counters(c.loaded, c.skipped + 1, c.read), q))
              && (size <= |s| - 2 && Documented(s[2]) != [] ==>
                    && r.more && r.counts == Counters(c.loaded + size, c.skipped, c.read + 1)
                    && |r.slots| == |q| + 1 && r.slots[..|q|] == q
                    && if |s| - 2 < DocumentedSize(s[2]) then r.rest == s[2..] && r.slots[|q|] == Unfilled(s[2])
                       else r.rest == s[2 + DocumentedSize(s[2])..]
                            && r.slots[|q|].Filled? && r.slots[|q|].message.code == s[2])
  {
    if |s| > 2 {
      KnownExactly(s[2]);
    }
    hide Layout, Meanings, Documented, DocumentedSize, MessageSize, Known;
    if |s| >= 2 {
      SizeOfPair(s);
    }
    if |s| > 2 {
      RestOfRest(s, (s[0] as int) * 256 + s[1] as int);
      RestOfRest(s, MessageSize(s[2]));
    }
  }

  lemma RestOfRest(s: seq<byte>, n: nat)
    requires |s| >= 2
    ensures 2 + n <= |s| ==> s[2..][n..] == s[2 + n..]
  {
  }

  lemma {:induction false} SizeOfPair(s: seq<byte>)
    requires |s| >= 2
    ensures FromBE(s[..2]) == (s[0] as int) * 256 + s[1] as int
  {
    FromBEFirst(s[..2]);
    Powers();
    assert s[..2][1..] == [s[1]] && [s[1]][..0] == [];
    assert FromBE([s[1]]) == s[1];
  }

  /** The macro for the decoded types. The queue takes a message after some failed attempts. */
  method ReadMessage(data: seq<byte>, p: nat, l: nat, messageSize: nat, status: ReadStatus, q: MessageQueue)
    returns (p': nat, l': nat)
    requires p + l <= |data| && 0 < l && Known(data[p])
    modifies status, q
    ensures p' + l' == p + l
    ensures Reading(true, data[p'..p' + l'], status.Counts(), q.slots)
         == ReadKnown(data[p..p + l], messageSize, old(status.Counts()), old(q.slots))
  {
    hide Layout, Meanings, MessageSize;
    ghost var t := data[p..p + l];
    var code := data[p];
    var ok, values;
    ok, values, p', l' := Decode(data, p, l, code);
    assert data[p + 1..p + l] == t[1..];
    assert ok ==> data[p'..p' + l'] == t[MessageSize(code)..];
    var failedPushes :| failedPushes >= 0;
    status.stall := status.stall + failedPushes;
    q.slots := q.slots + [if ok then Filled(Message(code, values)) else Unfilled(code)];
    status.loaded := status.loaded + messageSize;
    status.read := status.read + 1;
  }

  /** `read_next_message` */
  method ReadNextMessage(data: seq<byte>, p: nat, l: nat, status: ReadStatus, q: MessageQueue)
    returns (more: bool, p': nat, l': nat)
    requires p + l <= |data| && HasCode(data[p..p + l])
    modifies status, q
    ensures p' + l' == p + l
    ensures Reading(more, data[p'..p' + l'], status.Counts(), q.slots)
         == ReadNext(data[p..p + l], old(status.Counts()), old(q.slots))
  {
    hide Known, ReadKnown, FromBE, ReadNext, LoadAndSwap;
    if l < 2 {
      NoPair(data[p..p + l], status.Counts(), q.slots);
      return false, p, l;
    }
    NextAt(data, p, l, status.Counts(), q.slots);
    LoadIsBigEndian(data[p..p + 2]);
    var messageSize := LoadAndSwap(data[p..p + 2]);
    p', l' := p + 2, l - 2;
    more := messageSize <= l';
    if more {
      if Known(data[p']) {
        p', l' := ReadMessage(data, p', l', messageSize, status, q);
      } else {
        p', l' := p' + messageSize, l' - messageSize;
        status.skipped := status.skipped + 1;
      }
    }
  }

  lemma NoPair(s: seq<byte>, c: Counters, q: seq<Slot>)
    requires |s| < 2
    ensures HasCode(s) && ReadNext(s, c, q) == Reading(false, s, c, q)
  {
  }

  /** `ReadNext` in terms of the cursor. */
  lemma {:induction false} NextAt(data: seq<byte>, p: nat, l: nat, c: Counters, q: seq<Slot>)
    requires p + l <= |data| && l >= 2 && HasCode(data[p..p + l])
    ensures var size := FromBE(data[p..p + 2]);
            (size <= l - 2 ==> l > 2) &&
            ReadNext(data[p..p + l], c, q) ==
              if l - 2 < size then Reading(false, data[p + 2..p + l], c, q)
              else if Known(data[p + 2]) then ReadKnown(data[p + 2..p + l], size, c, q)
              else Reading(true, data[p + 2 + size..p + l], c.(skipped := c.skipped + 1), q)
  {
    hide Known, ReadKnown, FromBE;
    var s := data[p..p + l];
    SizeOfPair(s);
    assert s[..2] == data[p..p + 2] && s[2..] == data[p + 2..p + l];
    var size := FromBE(data[p..p + 2]);
    if size <= l - 2 {
      assert s[2..][size..] == data[p + 2 + size..p + l];
    }
  }

  /** Reading until `read_next_message` answers false. */
  function ReadAll(s: seq<byte>, c: Counters, q: seq<Slot>): Reading
    decreases |s|
  {
    if !HasCode(s) then Reading(false, s, c, q)
    else
      var r := ReadNext(s, c, q);
      if r.more then ReadAll(r.rest, r.counts, r.slots) else r
  }

  method ReadStream(data: seq<byte>, status: ReadStatus, q: MessageQueue) returns (p: nat, l: nat)
    modifies status, q
    ensures p + l == |data|
    ensures Reading(false, data[p..], status.Counts(), q.slots) == ReadAll(data, old(status.Counts()), old(q.slots))
  {
    hide ReadNext;
    p, l := 0, |data|;
    var more := true;
    ghost var all := ReadAll(data, status.Counts(), q.slots);
    assert data[0..|data|] == data;
    while more && HasCode(data[p..p + l])
      invariant p + l == |data|
      invariant if more then ReadAll(data[p..p + l], status.Counts(), q.slots) == all
                else Reading(false, data[p..p + l], status.Counts(), q.slots) == all
      decreases more, l
    {
      ghost var s := data[p..p + l];
      Shorter(s, status.Counts(), q.slots);
      more, p, l := ReadNextMessage(data, p, l, status, q);
    }
    assert data[p..p + l] == data[p..];
  }

  lemma Shorter(s: seq<byte>, c: Counters, q: seq<Slot>)
    requires HasCode(s)
    ensures ReadNext(s, c, q).more ==> |ReadNext(s, c, q).rest| < |s|
  {
  }

  // ---------------------------------------------------------------- the reference encoder

  ghost predicate Typed(f: Field, v: Value) {
    match f
    case Letter => v.Char?
    case Text(n) => v.Chars? && |v.s| == n
    case _ => v.Number? && v.n < Pow256(Width(f))
  }

  ghost predicate AllTyped(fields: seq<Field>, values: seq<Value>) {
    |fields| == |values| && forall i :: 0 <= i < |fields| ==> Typed(fields[i], values[i])
  }

  function EncodeField(f: Field, v: Value): (s: seq<byte>)
    ensures Typed(f, v) ==> |s| == Width(f)
  {
    match v
    case Number(n) => BE(n, Width(f))
    case Char(c) => [c]
    case Chars(s) => s
  }

  function EncodeFields(fields: seq<Field>, values: seq<Value>): (s: seq<byte>)
    requires |fields| == |values|
    ensures AllTyped(fields, values) ==> |s| == TotalWidth(fields)
  {
    if fields == [] then []
    else
      assert AllTyped(fields, values) ==> Typed(fields[0], values[0]) && AllTyped(fields[1..], values[1..]);
      EncodeField(fields[0], values[0]) + EncodeFields(fields[1..], values[1..])
  }

  /** The decoder lowers the letters of text fields and changes nothing else. */
  function Lowered(v: Value): Value {
    match v
    case Chars(s) => Chars(LowerAll(s))
    case _ => v
  }

  function AllLowered(values: seq<Value>): seq<Value> {
    seq(|values|, i requires 0 <= i < |values| => Lowered(values[i]))
  }

  lemma {:induction false} FieldRoundTrip(f: Field, v: Value)
    requires Typed(f, v)
    ensures Meaning(f, EncodeField(f, v)) == Lowered(v)
  {
    if v.Number? {
      FromBEOfBE(v.n, Width(f));
    }
  }

  lemma {:induction false} FieldsRoundTrip(fields: seq<Field>, values: seq<Value>, rest: seq<byte>)
    requires AllTyped(fields, values)
    ensures Meanings(fields, EncodeFields(fields, values) + rest) == AllLowered(values)
    decreases |fields|
  {
    if fields != [] {
      hide Meaning, EncodeField, Lowered;
      var head := EncodeField(fields[0], values[0]);
      var tail := EncodeFields(fields[1..], values[1..]) + rest;
      assert Typed(fields[0], values[0]) && AllTyped(fields[1..], values[1..]);
      assert EncodeFields(fields, values) + rest == head + tail;
      assert (head + tail)[..Width(fields[0])] == head && (head + tail)[Width(fields[0])..] == tail;
      FieldRoundTrip(fields[0], values[0]);
      FieldsRoundTrip(fields[1..], values[1..], rest);
    }
  }

  /** The bytes of some fields with the letters of texts lowered. */
  function LoweredBytes(fields: seq<Field>, s: seq<byte>): seq<byte>
    requires TotalWidth(fields) <= |s|
  {
    if fields == [] then []
    else
      var w := Width(fields[0]);
      (if fields[0].Text? then LowerAll(s[..w]) else s[..w]) + LoweredBytes(fields[1..], s[w..])
  }

  lemma {:induction false} FieldReencodes(f: Field, s: seq<byte>)
    requires |s| == Width(f)
    ensures Typed(f, Meaning(f, s))
    ensures EncodeField(f, Meaning(f, s)) == if f.Text? then LowerAll(s) else s
  {
    FromBERange(s);
    BEOfFromBE(s);
  }

  /** Whatever the bytes, what is decoded fits its fields, and encoding it again gives the bytes back
      but for the capitals of texts. */
  lemma {:induction false} FieldsReencode(fields: seq<Field>, s: seq<byte>)
    requires TotalWidth(fields) <= |s|
    ensures AllTyped(fields, Meanings(fields, s))
    ensures EncodeFields(fields, Meanings(fields, s)) == LoweredBytes(fields, s)
    decreases |fields|
  {
    if fields != [] {
      hide Meaning, EncodeField, Typed, Width, LowerAll;
      var w := Width(fields[0]);
      var rest := Meanings(fields[1..], s[w..]);
      FieldReencodes(fields[0], s[..w]);
      FieldsReencode(fields[1..], s[w..]);
      assert Meanings(fields, s) == [Meaning(fields[0], s[..w])] + rest;
      assert Meanings(fields, s)[1..] == rest;
      forall i | 0 <= i < |fields|
        ensures Typed(fields[i], Meanings(fields, s)[i])
      {
        if i > 0 {
          assert fields[i] == fields[1..][i - 1] && Meanings(fields, s)[i] == rest[i - 1];
        }
      }
    }
  }

  // ---------------------------------------------------------------- streams of frames

  /** A message of one of the eleven decoded types, or any other frame. */
  datatype Frame = Order(message: Message) | Other(payload: seq<byte>) {
    ghost predicate WellFormed() {
      match this
      case Order(m) => Known(m.code) && AllTyped(Layout(m.code), m.values)
      case Other(s) => 1 <= |s| < 0x1_0000 && !Known(s[0])
    }

    function Payload(): (s: seq<byte>)
      requires Order? ==> |message.values| == |Layout(message.code)|
    {
      match this
      case Order(m) => [m.code] + EncodeFields(Layout(m.code), m.values)
      case Other(s) => s
    }

    function Bytes(): seq<byte>
      requires Order? ==> |message.values| == |Layout(message.code)|
    {
      BE(|Payload()|, 2) + Payload()
    }
  }

  /** Every message read is one the encoder could have written, and its bytes were those but for capitals. */
  lemma {:induction false} ReadIsWellFormed(t: seq<byte>, size: nat, c: Counters, q: seq<Slot>)
    requires t != [] && Known(t[0]) && MessageSize(t[0]) <= |t|
    ensures var m := Message(t[0], Meanings(Layout(t[0]), t[1..]));
            && ReadKnown(t, size, c, q).slots == q + [Filled(m)]
            && Order(m).WellFormed()
            && Order(m).Payload() == [t[0]] + LoweredBytes(Layout(t[0]), t[1..])
  {
    hide Layout, Meanings, LoweredBytes;
    FieldsReencode(Layout(t[0]), t[1..]);
  }

  ghost predicate AllWellFormed(frames: seq<Frame>) {
    forall i :: 0 <= i < |frames| ==> frames[i].WellFormed()
  }

  ghost function Stream(frames: seq<Frame>): seq<byte>
    requires AllWellFormed(frames)
  {
    if frames == [] then [] else frames[0].Bytes() + Stream(frames[1..])
  }

  /** What reading one frame adds to the counters and the queue. */
  function Count(f: Frame, c: Counters): Counters {
    if f.Order? then c.(loaded := c.loaded + MessageSize(f.message.code), read := c.read + 1)
    else c.(skipped := c.skipped + 1)
  }

  function Decoded(f: Frame): seq<Slot> {
    if f.Order? then [Filled(Message(f.message.code, AllLowered(f.message.values)))] else []
  }

  function CountAll(frames: seq<Frame>, c: Counters): Counters {
    if frames == [] then c else CountAll(frames[1..], Count(frames[0], c))
  }

  function DecodedAll(frames: seq<Frame>): seq<Slot> {
    if frames == [] then [] else Decoded(frames[0]) + DecodedAll(frames[1..])
  }

  lemma {:induction false} WidthsBound(fields: seq<Field>)
    requires forall i :: 0 <= i < |fields| ==> Width(fields[i]) <= 8
    ensures TotalWidth(fields) <= 8 * |fields|
  {
    if fields != [] {
      WidthsBound(fields[1..]);
    }
  }

  lemma {:induction false} MessageFits(code: byte)
    ensures MessageSize(code) < 0x1_0000
  {
    WidthsBound(Layout(code));
  }

  /** One well-formed frame: the cursor ends at the next frame. */
  lemma {:induction false} FrameRoundTrip(f: Frame, more: seq<byte>, c: Counters, q: seq<Slot>)
    requires f.WellFormed()
    ensures HasCode(f.Bytes() + more)
    ensures ReadNext(f.Bytes() + more, c, q) == Reading(true, more, Count(f, c), q + Decoded(f))
  {
    var body, size := f.Payload(), |f.Payload()|;
    if f.Order? {
      MessageFits(f.message.code);
    }
    SizeRoundTrip(size);
    var s := f.Bytes() + more;
    var t := body + more;
    assert s[..2] == BE(size, 2) && s[2..] == t;
    if f.Order? {
      BodyRoundTrip(f.message, more, c, q);
    } else {
      assert t[size..] == more;
      assert q + [] == q;
    }
  }

  lemma {:induction false} SizeRoundTrip(n: nat)
    requires n < 0x1_0000
    ensures FromBE(BE(n, 2)) == n
  {
    Powers();
    FromBEOfBE(n, 2);
  }

  lemma {:induction false} BodyRoundTrip(m: Message, more: seq<byte>, c: Counters, q: seq<Slot>)
    requires Known(m.code) && AllTyped(Layout(m.code), m.values)
    ensures ReadKnown([m.code] + EncodeFields(Layout(m.code), m.values) + more,
                      1 + |EncodeFields(Layout(m.code), m.values)|, c, q)
         == Reading(true, more, Count(Order(m), c), q + Decoded(Order(m)))
  {
    hide Layout, Meanings;
    var fields := EncodeFields(Layout(m.code), m.values);
    var t := [m.code] + fields + more;
    assert t[1..] == fields + more && t[1 + |fields|..] == more;
    FieldsRoundTrip(Layout(m.code), m.values, more);
  }

  /** Reading any concatenation of well-formed frames ends with every byte consumed, the decoded
      messages in order, and the counters accounting for every frame. */
  lemma {:induction false} StreamRoundTrip(frames: seq<Frame>, c: Counters, q: seq<Slot>)
    requires AllWellFormed(frames)
    ensures ReadAll(Stream(frames), c, q) == Reading(false, [], CountAll(frames, c), q + DecodedAll(frames))
    decreases |frames|
  {
    hide ReadNext, Count, Decoded;
    if frames == [] {
      NothingLeft(c, q);
    } else {
      assert frames[0].WellFormed() && AllWellFormed(frames[1..]);
      FrameRoundTrip(frames[0], Stream(frames[1..]), c, q);
      StreamRoundTrip(frames[1..], Count(frames[0], c), q + Decoded(frames[0]));
      assert q + Decoded(frames[0]) + DecodedAll(frames[1..]) == q + DecodedAll(frames);
    }
  }

  lemma NothingLeft(c: Counters, q: seq<Slot>)
    ensures ReadAll([], c, q) == Reading(false, [], c, q + [])
  {
    assert q + [] == q;
  }

  /** The number of frames, and of bytes in decoded messages. */
  function DecodedBytes(frames: seq<Frame>): nat {
    if frames == [] then 0
    else (if frames[0].Order? then MessageSize(frames[0].message.code) else 0) + DecodedBytes(frames[1..])
  }

  /** Every frame is either read or skipped, and what is loaded is the payload of the decoded ones. */
  lemma {:induction false} CountersAddUp(frames: seq<Frame>, c: Counters)
    ensures var d := CountAll(frames, c);
            d.read + d.skipped == c.read + c.skipped + |frames|
            && d.loaded == c.loaded + DecodedBytes(frames)
            && d.read == c.read + |DecodedAll(frames)|
  {
    if frames != [] {
      hide MessageSize;
      CountersAddUp(frames[1..], Count(frames[0], c));
    }
  }

  /** A frame of a decoded type leaves the cursor at the next frame exactly when its length is that of
      the type: the declared length never moves the cursor. */
  lemma {:induction false} LengthMustAgree(code: byte, body: seq<byte>, more: seq<byte>, c: Counters, q: seq<Slot>)
    requires Known(code) && 1 + |body| < 0x1_0000
    ensures var s := BE(1 + |body|, 2) + [code] + body + more;
            HasCode(s) && (ReadNext(s, c, q).rest == more <==> 1 + |body| == MessageSize(code))
  {
    hide Layout, Meanings, MessageSize;
    var t := [code] + body + more;
    var s := BE(1 + |body|, 2) + [code] + body + more;
    SizeRoundTrip(1 + |body|);
    assert s[..2] == BE(1 + |body|, 2) && s[2..] == t;
    assert t[1 + |body|..] == more;
  }
}
