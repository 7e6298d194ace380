/** The xz dictionary check of internal/brief/archives.go 258-331 against The .xz
    File Format: multibyte integers (section 1.2), the block header (section 3.1)
    and the LZMA2 filter (section 5.3.1). */
module XzHeader {
  import opened Text

  type Byte = b: int | 0 <= b < 256

  datatype Error = NoBlockHeader | NotInPrefix | BadInteger | PropertiesOverrun | InvalidDictionary | DictionaryTooLarge

  datatype Decoded = Decoded(value: nat, rest: seq<Byte>)

  const DICTIONARY_LIMIT: nat := 0x800_0000
  const STREAM_HEADER := 12
  const LZMA2 := 0x21

  function Pow128(n: nat): (p: nat)
    ensures p > 0
  {
    if n == 0 then 1 else 128 * Pow128(n - 1)
  }

  function Pow2(n: nat): (p: nat)
    ensures p > 0
  {
    if n == 0 then 1 else 2 * Pow2(n - 1)
  }

  // ---------------------------------------------------------------- multibyte integers

  /** Section 1.2: seven bits a byte, the lowest first; the top bit says that more
      bytes follow. */
  function Encode(value: nat): (bytes: seq<Byte>)
    ensures bytes != []
  {
    if value < 128 then [value] else [value % 128 + 128] + Encode(value / 128)
  }

  function Decode(data: seq<Byte>, most: nat): Option<Decoded> {
    if most == 0 || data == [] then None
    else if data[0] < 128 then Some(Decoded(data[0], data[1..]))
    else match Decode(data[1..], most - 1)
      case None => None
      case Some(d) => Some(Decoded(data[0] % 128 + 128 * d.value, d.rest))
  }

  /** What is known after `i` bytes that add up to `value`. */
  function Shifted(value: nat, i: nat, d: Option<Decoded>): Option<Decoded> {
    if d.None? then None else Some(Decoded(value + Pow128(i) * d.value.value, d.value.rest))
  }

  /** The part that each byte contributes lies above the bits gathered before, so
      combining them is adding. */
  method XzVarint(data: seq<Byte>) returns (r: Option<Decoded>)
    ensures r == Decode(data, 9)
  {
    hide Decode, Shifted, Pow128;
    var value: nat := 0;
    var i := 0;
    assert data[0..] == data && Pow128(0) == 1 by { ShiftedStart(data); }
    ShiftedStart(data);
    while i < 9 && i < |data|
      invariant 0 <= i <= 9 && i <= |data|
      invariant value < Pow128(i)
      invariant Shifted(value, i, Decode(data[i..], 9 - i)) == Decode(data, 9)
    {
      ShiftedStep(data, i, value);
      value := value + data[i] % 128 * Pow128(i);
      if data[i] < 128 {
        return Some(Decoded(value, data[i + 1..]));
      }
      i := i + 1;
    }
    NothingLeft(data[i..], 9 - i, value, i);
    return None;
  }

  lemma NothingLeft(rest: seq<Byte>, most: nat, value: nat, i: nat)
    requires most == 0 || rest == []
    ensures Shifted(value, i, Decode(rest, most)) == None
  {
  }

  lemma ShiftedStart(data: seq<Byte>)
    ensures Pow128(0) == 1
    ensures Shifted(0, 0, Decode(data, 9)) == Decode(data, 9)
  {
    assert Pow128(0) == 1;
  }

  lemma ShiftedStep(data: seq<Byte>, i: nat, value: nat)
    requires i < |data| && i < 9 && value < Pow128(i)
    ensures value + data[i] % 128 * Pow128(i) < Pow128(i + 1)
    ensures Shifted(value, i, Decode(data[i..], 9 - i)) ==
            if data[i] < 128 then Some(Decoded(value + data[i] % 128 * Pow128(i), data[i + 1..]))
            else Shifted(value + data[i] % 128 * Pow128(i), i + 1, Decode(data[i + 1..], 9 - (i + 1)))
  {
    hide Pow128, Shifted, Decode;
    var rest, low := data[i..], data[i] % 128;
    assert rest[0] == data[i] && rest[1..] == data[i + 1..];
    DecodeStep(rest, 9 - i);
    PowStep(value, i, low);
    var d := Decode(data[i + 1..], 9 - (i + 1));
    ShiftOne(value, i, low, d);
  }

  lemma DecodeStep(data: seq<Byte>, most: nat)
    requires data != [] && most > 0
    ensures data[0] < 128 ==> Decode(data, most) == Some(Decoded(data[0], data[1..]))
    ensures data[0] >= 128 ==> Decode(data, most) == Shifted(data[0] % 128, 1, Decode(data[1..], most - 1))
  {
    assert Pow128(1) == 128;
  }

  lemma PowStep(value: nat, i: nat, low: nat)
    requires value < Pow128(i) && low < 128
    ensures value + low * Pow128(i) < Pow128(i + 1)
  {
    Times(low, 127, Pow128(i));
  }

  lemma ShiftOne(value: nat, i: nat, low: nat, d: Option<Decoded>)
    ensures Shifted(value, i, Shifted(low, 1, d)) == Shifted(value + low * Pow128(i), i + 1, d)
    ensures forall rest :: Shifted(value, i, Some(Decoded(low, rest))) == Some(Decoded(value + low * Pow128(i), rest))
  {
    hide Pow128;
    PowFacts(i);
    if d.Some? {
      Regroup(Pow128(i), low, d.value.value);
    }
    Commute(low, Pow128(i));
  }

  lemma PowFacts(i: nat)
    ensures Pow128(1) == 128 && Pow128(i + 1) == 128 * Pow128(i)
  {
  }

  lemma Commute(a: nat, b: nat)
    ensures a * b == b * a
  {
  }

  lemma Regroup(p: nat, low: nat, v: nat)
    ensures p * (low + 128 * v) == low * p + 128 * p * v
  {
  }

  lemma Times(a: nat, b: nat, p: nat)
    requires a <= b
    ensures a * p <= b * p
  {
  }

  /** Every value below 2^63 is read back, whatever follows it. */
  lemma VarintRoundTrip(value: nat, rest: seq<Byte>)
    requires value < 0x8000_0000_0000_0000
    ensures Decode(Encode(value) + rest, 9) == Some(Decoded(value, rest))
  {
    assert Pow128(9) == 0x8000_0000_0000_0000 by { Pow128Of9(); }
    DecodeEncode(value, rest, 9);
  }

  lemma Pow128Of9()
    ensures Pow128(9) == 0x8000_0000_0000_0000
  {
    assert Pow128(3) == 0x20_0000;
    assert Pow128(6) == 0x400_0000_0000;
  }

  lemma {:induction false} DecodeEncode(value: nat, rest: seq<Byte>, most: nat)
    requires value < Pow128(most) && most > 0
    ensures Decode(Encode(value) + rest, most) == Some(Decoded(value, rest))
  {
    var data := Encode(value) + rest;
    if value < 128 {
      assert data[0] == value && data[1..] == rest;
    } else {
      assert data[0] == value % 128 + 128 && data[1..] == Encode(value / 128) + rest;
      DecodeEncode(value / 128, rest, most - 1);
    }
  }

  /** The number of bytes read. */
  function Used(data: seq<Byte>, most: nat): (n: nat)
    requires Decode(data, most).Some?
    ensures 0 < n <= most && n <= |data| && data[n..] == Decode(data, most).value.rest
  {
    if data[0] < 128 then 1 else
      var n := Used(data[1..], most - 1);
      assert data[1..][n..] == data[n + 1..];
      n + 1
  }

  /** Conversely, what is read was the encoding of the value, unless its last byte
      is a zero that the shortest encoding leaves out. */
  lemma {:induction false} DecodedWasEncoded(data: seq<Byte>, most: nat)
    requires Decode(data, most).Some?
    ensures var d, n := Decode(data, most).value, Used(data, most);
            n == 1 || data[n - 1] != 0 ==> data == Encode(d.value) + d.rest && (n > 1 ==> d.value >= 128)
  {
    hide Encode, Decode, Used;
    assert most > 0 && data != [] && data == [data[0]] + data[1..] by { FirstByte(data, most); }
    FirstByte(data, most);
    if data[0] < 128 {
      EncodeShort(data[0]);
    } else if data[Used(data, most) - 1] != 0 {
      var tail, n := data[1..], Used(data[1..], most - 1);
      var d := Decode(tail, most - 1).value;
      assert tail[n - 1] == data[n];
      DecodedWasEncoded(tail, most - 1);
      FirstByte(tail, most - 1);
      assert d.value > 0;
      EncodeLong(data[0] % 128, d.value);
      assert data == [data[0]] + (Encode(d.value) + d.rest);
    }
  }

  lemma FirstByte(data: seq<Byte>, most: nat)
    requires Decode(data, most).Some?
    ensures most > 0 && data != []
    ensures data[0] < 128 ==> Decode(data, most).value == Decoded(data[0], data[1..]) && Used(data, most) == 1
    ensures data[0] >= 128 ==>
              && Decode(data[1..], most - 1).Some? && Used(data, most) == Used(data[1..], most - 1) + 1
              && Used(data, most) > 1
              && var d := Decode(data[1..], most - 1).value;
              Decode(data, most).value == Decoded(data[0] % 128 + 128 * d.value, d.rest)
  {
  }

  lemma EncodeShort(value: nat)
    requires value < 128
    ensures Encode(value) == [value]
  {
  }

  lemma EncodeLong(low: nat, high: nat)
    requires low < 128 && high > 0
    ensures Encode(low + 128 * high) == [low + 128] + Encode(high)
  {
    assert (low + 128 * high) / 128 == high && (low + 128 * high) % 128 == low;
  }

  // ---------------------------------------------------------------- the check

  /** Section 5.3.1; 40 stands for 4 GiB. */
  function DictionarySize(bits: nat): (size: nat)
    requires bits <= 40
  {
    if bits == 40 then 0x1_0000_0000 else (2 + bits % 2) * Pow2(bits / 2 + 11)
  }

  /** The verdict on one filter. */
  function CheckFilter(id: nat, properties: seq<Byte>): Option<Error> {
    if id != LZMA2 || |properties| != 1 then None
    else if properties[0] > 40 then Some(InvalidDictionary)
    else if DictionarySize(properties[0]) > DICTIONARY_LIMIT then Some(DictionaryTooLarge)
    else None
  }

  function CheckFilters(cursor: seq<Byte>, count: nat): Option<Error>
    decreases count
  {
    if count == 0 then None else
      var id := Decode(cursor, 9);
      if id.None? then Some(BadInteger) else
        var length := Decode(id.value.rest, 9);
        if length.None? then Some(BadInteger)
        else if length.value.value > |length.value.rest| then Some(PropertiesOverrun)
        else
          var properties := length.value.rest[..length.value.value];
          match CheckFilter(id.value.value, properties)
          case Some(e) => Some(e)
          case None => CheckFilters(length.value.rest[length.value.value..], count - 1)
  }

  /** Passes over one optional size field. */
  function SkipSize(cursor: seq<Byte>, present: bool): Option<seq<Byte>> {
    if !present then Some(cursor)
    else match Decode(cursor, 9)
      case None => None
      case Some(d) => Some(d.rest)
  }

  /** The block header without its size byte: flags, sizes, filters. */
  function CheckBody(body: seq<Byte>): Option<Error>
    requires body != []
  {
    var flags := body[0];
    var first := SkipSize(body[1..], flags / 64 % 2 == 1);
    if first.None? then Some(BadInteger) else
      var second := SkipSize(first.value, flags / 128 == 1);
      if second.None? then Some(BadInteger) else CheckFilters(second.value, flags % 4 + 1)
  }

  function CheckHead(head: seq<Byte>): Option<Error> {
    if |head| <= STREAM_HEADER then Some(NoBlockHeader)
    else
      var block := head[STREAM_HEADER..];
      var size := (block[0] as int + 1) * 4;
      if block[0] == 0 then None
      else if size > |block| then Some(NotInPrefix)
      else CheckBody(block[1..size])
  }

  method CheckXzDictionary(head: seq<Byte>) returns (error: Option<Error>)
    ensures error == CheckHead(head)
  {
    hide Decode, CheckFilters, DictionarySize;
    if |head| <= STREAM_HEADER {
      return Some(NoBlockHeader);
    }
    var block := head[STREAM_HEADER..];
    if block[0] == 0 {
      return None;
    }
    var size := (block[0] as int + 1) * 4;
    if size > |block| {
      return Some(NotInPrefix);
    }
    var cursor := block[1..size];
    var flags := cursor[0];
    cursor := cursor[1..];
    if flags / 64 % 2 == 1 {
      var skipped := XzVarint(cursor);
      if skipped.None? {
        return Some(BadInteger);
      }
      cursor := skipped.value.rest;
    }
    if flags / 128 == 1 {
      var skipped := XzVarint(cursor);
      if skipped.None? {
        return Some(BadInteger);
      }
      cursor := skipped.value.rest;
    }
    ghost var filters := cursor;
    var count := flags % 4 + 1;
    for i := 0 to count
      invariant CheckFilters(cursor, count - i) == CheckFilters(filters, count)
    {
      FiltersStep(cursor, count - i);
      var id := XzVarint(cursor);
      if id.None? {
        return Some(BadInteger);
      }
      var length := XzVarint(id.value.rest);
      if length.None? {
        return Some(BadInteger);
      }
      cursor := length.value.rest;
      if length.value.value > |cursor| {
        return Some(PropertiesOverrun);
      }
      var properties := cursor[..length.value.value];
      cursor := cursor[length.value.value..];
      if id.value.value != LZMA2 || |properties| != 1 {
        continue;
      }
      if properties[0] > 40 {
        return Some(InvalidDictionary);
      }
      if DictionarySize(properties[0]) > DICTIONARY_LIMIT {
        return Some(DictionaryTooLarge);
      }
    }
    FiltersEnd(cursor);
    return None;
  }

  lemma FiltersEnd(cursor: seq<Byte>)
    ensures CheckFilters(cursor, 0) == None
  {
  }

  lemma FiltersStep(cursor: seq<Byte>, count: nat)
    requires count > 0
    ensures CheckFilters(cursor, count) ==
            var id := Decode(cursor, 9);
            if id.None? then Some(BadInteger) else
              var length := Decode(id.value.rest, 9);
              if length.None? then Some(BadInteger)
              else if length.value.value > |length.value.rest| then Some(PropertiesOverrun)
              else match CheckFilter(id.value.value, length.value.rest[..length.value.value])
                case Some(e) => Some(e)
                case None => CheckFilters(length.value.rest[length.value.value..], count - 1)
  {
    hide Decode, CheckFilter;
  }

  // ---------------------------------------------------------------- printed headers

  datatype Filter = Filter(id: nat, properties: seq<Byte>)

  /** Section 3.1.  `after` is the header padding and the CRC32. */
  datatype BlockHeader = BlockHeader(compressed: Option<nat>, uncompressed: Option<nat>, filters: seq<Filter>,
                                     after: seq<Byte>)

  const INTEGERS: nat := 0x8000_0000_0000_0000

  predicate WellFormedFilter(f: Filter) {
    f.id < INTEGERS && |f.properties| < INTEGERS && (f.id == LZMA2 ==> |f.properties| == 1)
  }

  predicate WellFormedSize(size: Option<nat>) {
    size.Some? ==> size.value < INTEGERS
  }

  predicate WellFormed(b: BlockHeader) {
    && WellFormedSize(b.compressed) && WellFormedSize(b.uncompressed)
    && 1 <= |b.filters| <= 4 && (forall f :: f in b.filters ==> WellFormedFilter(f))
    && (|PrintBody(b)| + 1) % 4 == 0 && 8 <= |PrintBody(b)| + 1 <= 1024
  }

  function PrintSize(size: Option<nat>): seq<Byte> {
    if size.None? then [] else Encode(size.value)
  }

  function PrintFilters(filters: seq<Filter>): seq<Byte> {
    if filters == [] then []
    else
      var f := filters[0];
      Encode(f.id) + (Encode(|f.properties|) + (f.properties + PrintFilters(filters[1..])))
  }

  function Flags(b: BlockHeader): Byte
    requires 1 <= |b.filters| <= 4
  {
    |b.filters| - 1 + (if b.compressed.Some? then 64 else 0) + if b.uncompressed.Some? then 128 else 0
  }

  function PrintBody(b: BlockHeader): (body: seq<Byte>)
    requires 1 <= |b.filters| <= 4
    ensures body != []
  {
    [Flags(b)] + (PrintSize(b.compressed) + (PrintSize(b.uncompressed) + (PrintFilters(b.filters) + b.after)))
  }

  function PrintHeader(b: BlockHeader): (block: seq<Byte>)
    requires WellFormed(b)
    ensures |block| == |PrintBody(b)| + 1
  {
    [(|PrintBody(b)| + 1) / 4 - 1] + PrintBody(b)
  }

  predicate WithinLimit(f: Filter) {
    f.id == LZMA2 && |f.properties| == 1 ==>
      f.properties[0] <= 40 && DictionarySize(f.properties[0]) <= DICTIONARY_LIMIT
  }

  /** The check succeeds on a complete, well-formed first block header if and only
      if every LZMA2 filter declares a dictionary of at most 128 MiB; if and only if
      its property byte is at most 30. */
  lemma ChecksDictionaries(stream: seq<Byte>, b: BlockHeader, rest: seq<Byte>)
    requires |stream| == STREAM_HEADER && WellFormed(b)
    ensures CheckHead(stream + PrintHeader(b) + rest).None? <==> forall f :: f in b.filters ==> WithinLimit(f)
    ensures CheckHead(stream + PrintHeader(b) + rest).None? <==>
            forall f :: f in b.filters && f.id == LZMA2 ==> f.properties[0] <= 30
  {
    hide DictionarySize, CheckFilters, PrintBody, WellFormedSize;
    var head, body := stream + PrintHeader(b) + rest, PrintBody(b);
    var block, size := head[STREAM_HEADER..], |body| + 1;
    assert block == PrintHeader(b) + rest;
    assert (block[0] as int + 1) * 4 == size && block[1..size] == body;
    BodyIsChecked(b);
    forall f | f in b.filters ensures WithinLimit(f) <==> (f.id == LZMA2 ==> f.properties[0] <= 30) {
      assert WellFormedFilter(f);
      if f.id == LZMA2 && f.properties[0] <= 40 {
        LimitIsThirty(f.properties[0]);
      }
    }
  }

  lemma BodyIsChecked(b: BlockHeader)
    requires WellFormed(b)
    ensures CheckBody(PrintBody(b)).None? <==> forall f :: f in b.filters ==> WithinLimit(f)
  {
    hide DictionarySize, CheckFilters, PrintFilters, Decode, Encode, WithinLimit, WellFormedFilter;
    var body, filters := PrintBody(b), PrintFilters(b.filters) + b.after;
    assert body[1..] == PrintSize(b.compressed) + (PrintSize(b.uncompressed) + filters);
    SizeIsSkipped(b.compressed, PrintSize(b.uncompressed) + filters);
    SizeIsSkipped(b.uncompressed, filters);
    FiltersAreChecked(b.filters, b.after);
  }

  lemma SizeIsSkipped(size: Option<nat>, rest: seq<Byte>)
    requires WellFormedSize(size)
    ensures SkipSize(PrintSize(size) + rest, size.Some?) == Some(rest)
  {
    hide Decode, Encode;
    if size.Some? {
      VarintRoundTrip(size.value, rest);
    } else {
      assert [] + rest == rest;
    }
  }

  lemma {:induction false} FiltersAreChecked(filters: seq<Filter>, after: seq<Byte>)
    requires forall f :: f in filters ==> WellFormedFilter(f)
    ensures CheckFilters(PrintFilters(filters) + after, |filters|).None? <==>
              forall f :: f in filters ==> WithinLimit(f)
  {
    hide DictionarySize, Decode, Encode, CheckFilters, CheckFilter, WithinLimit, PrintFilters;
    if filters == [] {
      FiltersEnd(PrintFilters(filters) + after);
    } else {
      var f, more := filters[0], filters[1..];
      assert f in filters && WellFormedFilter(f);
      var cursor := PrintFilters(filters) + after;
      var tail := PrintFilters(more) + after;
      PrintFirst(filters, after);
      VarintRoundTrip(f.id, Encode(|f.properties|) + (f.properties + tail));
      VarintRoundTrip(|f.properties|, f.properties + tail);
      assert (f.properties + tail)[..|f.properties|] == f.properties && (f.properties + tail)[|f.properties|..] == tail;
      FiltersStep(cursor, |filters|);
      FilterIsChecked(f);
      FiltersAreChecked(more, after);
      assert filters == [f] + more;
    }
  }

  lemma PrintFirst(filters: seq<Filter>, after: seq<Byte>)
    requires filters != []
    ensures var f := filters[0];
            PrintFilters(filters) + after ==
            Encode(f.id) + (Encode(|f.properties|) + (f.properties + (PrintFilters(filters[1..]) + after)))
  {
    hide Encode;
  }

  lemma FilterIsChecked(f: Filter)
    ensures CheckFilter(f.id, f.properties).None? <==> WithinLimit(f)
  {
  }

  lemma {:induction false} Pow2Grows(m: nat, n: nat)
    requires m <= n
    ensures Pow2(m) <= Pow2(n)
  {
    if n > m {
      Pow2Grows(m, n - 1);
    }
  }

  lemma SizesGrow(a: nat, b: nat)
    requires a < b <= 40
    ensures DictionarySize(a) < DictionarySize(b)
  {
    hide Pow2;
    Pow2Of26();
    if b == 40 {
      Pow2Grows(a / 2 + 11, 30);
      Scale(2 + a % 2, 3, Pow2(a / 2 + 11), 0x4000_0000);
    } else if a / 2 < b / 2 {
      Pow2Step(a / 2 + 11);
      Pow2Grows(a / 2 + 12, b / 2 + 11);
      Scale(2 + a % 2, 3, Pow2(a / 2 + 11), Pow2(a / 2 + 11));
      Scale(2, 2 + b % 2, Pow2(a / 2 + 12), Pow2(b / 2 + 11));
    } else {
      assert a % 2 == 0 && b % 2 == 1 && a / 2 == b / 2;
    }
  }

  lemma Pow2Step(n: nat)
    ensures Pow2(n + 1) == 2 * Pow2(n)
  {
  }

  lemma Scale(a: nat, b: nat, x: nat, y: nat)
    requires a <= b && x <= y
    ensures a * x <= b * y
  {
    Times(a, b, x);
    Times(x, y, b);
    Commute(x, b);
    Commute(y, b);
  }

  lemma Pow2Of26()
    ensures Pow2(26) == 0x400_0000
    ensures Pow2(30) == 0x4000_0000
  {
    assert Pow2(8) == 256;
    assert Pow2(16) == 0x1_0000;
    assert Pow2(24) == 0x100_0000;
  }

  lemma LimitIsThirty(bits: nat)
    requires bits <= 40
    ensures DictionarySize(bits) <= DICTIONARY_LIMIT <==> bits <= 30
  {
    Pow2Of26();
    assert DictionarySize(30) == DICTIONARY_LIMIT;
    if bits < 30 {
      SizesGrow(bits, 30);
    } else if bits > 30 {
      SizesGrow(30, bits);
    }
  }

  // ---------------------------------------------------------------- what is not inspected

  /** Where the first block header ends, or the index indicator in its place. */
  function HeaderEnd(head: seq<Byte>): nat
    requires |head| > STREAM_HEADER
  {
    STREAM_HEADER + if head[STREAM_HEADER] == 0 then 1 else (head[STREAM_HEADER] as int + 1) * 4
  }

  /** Whatever stands behind the first block header, later blocks and streams
      included, does not change the verdict. */
  lemma OnlyTheFirstHeaderCounts(head: seq<Byte>, other: seq<Byte>)
    requires |head| > STREAM_HEADER && |head| >= HeaderEnd(head)
    requires head[..HeaderEnd(head)] <= other
    ensures CheckHead(other) == CheckHead(head)
  {
    hide CheckBody;
    var end := HeaderEnd(head);
    assert other[..end] == head[..end];
    assert other[STREAM_HEADER] == other[..end][STREAM_HEADER] && head[STREAM_HEADER] == head[..end][STREAM_HEADER];
    if head[STREAM_HEADER] != 0 {
      assert head[STREAM_HEADER..][1..end - STREAM_HEADER] == head[..end][STREAM_HEADER + 1..];
      assert other[STREAM_HEADER..][1..end - STREAM_HEADER] == other[..end][STREAM_HEADER + 1..];
    }
  }

  /** One LZMA2 filter, without sizes, padded to twelve bytes. */
  function Declares(bits: Byte): (b: BlockHeader)
    requires bits <= 40
    ensures WellFormed(b) && b.filters == [Filter(LZMA2, [bits])]
  {
    var b := BlockHeader(None, None, [Filter(LZMA2, [bits])], [0, 0, 0, 0, 0, 0, 0]);
    assert PrintFilters(b.filters[1..]) == [] && |PrintFilters(b.filters)| == 3;
    b
  }

  /** A header that declares 4 GiB fails the check, but neither behind a block with
      a small dictionary nor behind a stream without blocks. */
  lemma LaterDictionariesAreNotSeen(stream: seq<Byte>, between: seq<Byte>)
    requires |stream| == STREAM_HEADER
    ensures CheckHead(stream + PrintHeader(Declares(40))).Some?
    ensures CheckHead(stream + PrintHeader(Declares(0)) + (between + PrintHeader(Declares(40)))).None?
    ensures CheckHead(stream + [0] + (between + stream + PrintHeader(Declares(40)))).None?
  {
    hide CheckBody, PrintHeader, Declares;
    var large, small := Declares(40), Declares(0);
    assert large.filters[0] in large.filters;
    ChecksDictionaries(stream, large, []);
    assert stream + PrintHeader(large) + [] == stream + PrintHeader(large);
    ChecksDictionaries(stream, small, between + PrintHeader(large));
  }
}
