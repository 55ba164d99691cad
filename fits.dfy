/**
 * A minimal reader for the primary header and data unit of a FITS file
 * (FITS Standard 4.0): 80-character header cards up to the END card
 * (sections 4.1 and 4.4.1.1), the header padded to a whole number of
 * 2880-byte blocks (section 3.1), three keywords read by exact-prefix
 * matching, and a big-endian payload whose element type BITPIX selects
 * (Table 8 of section 4.4.1.1; two's-complement integers, section 5.2).
 *
 * The file is the sequence of its bytes.  32-bit integers are decoded
 * exactly; floating-point elements are kept as their big-endian bytes,
 * since their IEEE-754 meaning is outside the model.
 */
module Fits {
  import opened Wrappers
  import opened HeaderText

  newtype byte = b: int | 0 <= b < 256

  const CARD_SIZE: nat := 80
  const BLOCK_SIZE: nat := 2880

  /** Why the reader gives up on a file (the source prints the exception and returns None). */
  datatype FitsError =
    | MissingEnd              // no card starting with END before the end of the file
    | BadKeywordValue         // `int()` raised on the value of NAXIS, NAXIS1 or BITPIX
    | PayloadNotWholeElements // payload length not a multiple of the element width
    | EmptyData               // no element left, so `np.min` raised

  function Min(a: int, b: int): int { if a <= b then a else b }

  // ---------------------------------------------------------------------
  // Header cards
  // ---------------------------------------------------------------------

  /** `bytes.decode('ascii', errors='ignore')`: bytes below 128 become characters, the others vanish. */
  function DecodeAscii(bs: seq<byte>): (s: string)
    ensures |s| <= |bs|
  {
    if bs == [] then []
    else (if bs[0] < 128 then [(bs[0] as int) as char] else []) + DecodeAscii(bs[1..])
  }

  /** Bytes that are all ASCII decode one character each, with the same codes. */
  lemma {:induction false} DecodeAsciiOfAscii(bs: seq<byte>)
    requires forall i :: 0 <= i < |bs| ==> bs[i] < 128
    ensures |DecodeAscii(bs)| == |bs|
    ensures forall i :: 0 <= i < |bs| ==> DecodeAscii(bs)[i] as int == bs[i] as int
  {
    if bs != [] {
      var t := bs[1..];
      DecodeAsciiOfAscii(t);
      assert DecodeAscii(bs) == [(bs[0] as int) as char] + DecodeAscii(t);
    }
  }

  /** `f.read(n)` with the file positioned at `pos`: `n` bytes, fewer at the end, none past it. */
  function ReadAt(file: seq<byte>, pos: nat, n: nat): seq<byte> {
    file[Min(pos, |file|)..Min(pos + n, |file|)]
  }

  /** The text of the `k`-th 80-byte card, as the reader sees it. */
  function Card(file: seq<byte>, k: nat): string {
    DecodeAscii(ReadAt(file, CARD_SIZE * k, CARD_SIZE))
  }

  /** The scan stops at a card whose text begins with `END`. */
  predicate IsEndCard(card: string) {
    |card| >= 3 && card[0] == 'E' && card[1] == 'N' && card[2] == 'D'
  }

  /** The first card at or after `k` that begins with `END` and lies inside the file. */
  function FindEndFrom(file: seq<byte>, k: nat): Option<nat>
    decreases |file| - CARD_SIZE * k
  {
    if CARD_SIZE * k >= |file| then None
    else if IsEndCard(Card(file, k)) then Some(k)
    else FindEndFrom(file, k + 1)
  }

  /**
   * What the search finds: a card inside the file that begins with END,
   * with none before it from `k` on; or None when no card from `k` on
   * inside the file begins with END.
   */
  lemma {:induction false} FindEndFromSpec(file: seq<byte>, k: nat)
    ensures var r := FindEndFrom(file, k);
      && (r.Some? ==>
            && k <= r.value
            && CARD_SIZE * r.value < |file|
            && IsEndCard(Card(file, r.value))
            && (forall j :: k <= j < r.value ==> !IsEndCard(Card(file, j))))
      && (r.None? ==> forall j :: k <= j && CARD_SIZE * j < |file| ==> !IsEndCard(Card(file, j)))
    decreases |file| - CARD_SIZE * k
  {
    if CARD_SIZE * k < |file| && !IsEndCard(Card(file, k)) {
      FindEndFromSpec(file, k + 1);
    }
  }

  /** The index of the END card, if the file has one. */
  function FirstEnd(file: seq<byte>): Option<nat> {
    FindEndFrom(file, 0)
  }

  /** The first `n` cards of the file. */
  function HeaderCards(file: seq<byte>, n: nat): (cards: seq<string>)
    ensures |cards| == n && forall k :: 0 <= k < n ==> cards[k] == Card(file, k)
  {
    seq(n, k requires 0 <= k < n => Card(file, k))
  }

  /**
   * The header loop: read 80 bytes at a time and keep every card up to and
   * including the first one that begins with END.  Where the source would
   * go on reading empty cards forever (no END card in the file), this
   * returns MissingEnd as soon as the file is exhausted.
   */
  method ScanHeader(file: seq<byte>) returns (r: Result<seq<string>, FitsError>)
    ensures FirstEnd(file).None? ==> r == Failure(MissingEnd)
    ensures FirstEnd(file).Some? ==> r == Success(HeaderCards(file, FirstEnd(file).value + 1))
  {
    var cards: seq<string> := [];
    var pos: nat := 0;
    while true
      invariant pos == Min(CARD_SIZE * |cards|, |file|)
      invariant cards == HeaderCards(file, |cards|)
      invariant FirstEnd(file) == FindEndFrom(file, |cards|)
      decreases |file| - pos
    {
      var chunk := ReadAt(file, pos, CARD_SIZE);
      if chunk == [] {
        assert FindEndFrom(file, |cards|) == None;
        return Failure(MissingEnd);
      }
      var n := |cards|;
      assert pos == CARD_SIZE * n;
      var card := DecodeAscii(chunk);
      assert card == Card(file, n);
      cards := cards + [card];
      assert cards == HeaderCards(file, n + 1);
      pos := pos + |chunk|;
      if IsEndCard(card) {
        assert FindEndFrom(file, n) == Some(n);
        return Success(cards);
      }
      assert FindEndFrom(file, n) == FindEndFrom(file, n + 1);
    }
  }

  /** Bytes the header occupies: the cards read, rounded up to whole 2880-byte blocks. */
  function DataOffset(cardCount: nat): (offset: nat)
    ensures offset % BLOCK_SIZE == 0
    ensures CARD_SIZE * cardCount <= offset < CARD_SIZE * cardCount + BLOCK_SIZE
  {
    var headerSize := cardCount * CARD_SIZE;
    var headerBlocks := (headerSize + 2879) / BLOCK_SIZE;
    headerBlocks * BLOCK_SIZE
  }

  // ---------------------------------------------------------------------
  // Keywords
  // ---------------------------------------------------------------------

  datatype Keyword = Naxis | Naxis1 | Bitpix

  /** The exact text a card must begin with to set the keyword. */
  function Prefix(kw: Keyword): string {
    match kw
    case Naxis => "NAXIS   ="
    case Naxis1 => "NAXIS1  ="
    case Bitpix => "BITPIX  ="
  }

  /**
   * The keyword a card sets, tested in the order NAXIS, NAXIS1, BITPIX.
   * The three prefixes share their last three characters, two blanks and
   * `=`, so `startswith` is decided character by character; the lemma
   * below states the result in terms of the prefixes themselves.
   */
  function KeywordOf(card: string): Option<Keyword> {
    if |card| < 9 || card[6] != ' ' || card[7] != ' ' || card[8] != '=' then None
    else if card[0] == 'N' && card[1] == 'A' && card[2] == 'X' && card[3] == 'I' && card[4] == 'S' then
      if card[5] == ' ' then Some(Naxis) else if card[5] == '1' then Some(Naxis1) else None
    else if card[0] == 'B' && card[1] == 'I' && card[2] == 'T' && card[3] == 'P' && card[4] == 'I' && card[5] == 'X'
    then Some(Bitpix)
    else None
  }

  /**
   * No card begins with two of the prefixes, so the order of the tests does
   * not matter: a card sets a keyword exactly when it begins with its prefix.
   */
  lemma KeywordOfIsPrefix(card: string, kw: Keyword)
    ensures KeywordOf(card) == Some(kw) <==> Prefix(kw) <= card
  {
    if Prefix(kw) <= card {
      assert card[0] == Prefix(kw)[0];
      assert card[5] == Prefix(kw)[5];
    }
  }

  /** `card.split('=')[1].split('/')[0].strip()`. */
  function ValueText(card: string): string
    requires KeywordOf(card).Some?
  {
    Strip(UpTo(SecondField(card, '='), '/'))
  }

  /** `int()` of the value of a keyword card; None when it raises. */
  function CardValue(card: string): Option<int>
    requires KeywordOf(card).Some?
  {
    ParseInt(ValueText(card))
  }

  /** A keyword card whose value `int()` rejects. */
  predicate Unparsable(card: string) {
    KeywordOf(card).Some? && CardValue(card).None?
  }

  /** No keyword card among `cards` has a value `int()` rejects. */
  predicate AllParsable(cards: seq<string>) {
    forall j :: 0 <= j < |cards| ==> !Unparsable(cards[j])
  }

  lemma AllParsableStep(cards: seq<string>, i: nat)
    requires i < |cards| && AllParsable(cards[..i]) && !Unparsable(cards[i])
    ensures AllParsable(cards[..i + 1])
  {
    forall j | 0 <= j < i + 1
      ensures !Unparsable(cards[j])
    {
      if j < i {
        assert cards[..i][j] == cards[j];
      }
    }
  }

  /** One more card keeps every value parsable exactly when its own value parses. */
  lemma AllParsablePrefix(cards: seq<string>, i: nat)
    requires i < |cards|
    ensures AllParsable(cards[..i + 1]) <==> AllParsable(cards[..i]) && !Unparsable(cards[i])
  {
    if !AllParsable(cards[..i]) {
      var j :| 0 <= j < i && Unparsable(cards[..i][j]);
      assert cards[..i + 1][j] == cards[..i][j];
    } else if Unparsable(cards[i]) {
      assert cards[..i + 1][i] == cards[i];
    } else {
      AllParsableStep(cards, i);
    }
  }

  /** The position of the last card that sets `kw`. */
  function LastCardFor(cards: seq<string>, kw: Keyword): (r: Option<nat>)
    ensures r.Some? ==>
      && r.value < |cards|
      && KeywordOf(cards[r.value]) == Some(kw)
      && forall j :: r.value < j < |cards| ==> KeywordOf(cards[j]) != Some(kw)
    ensures r.None? ==> forall j :: 0 <= j < |cards| ==> KeywordOf(cards[j]) != Some(kw)
  {
    if cards == [] then None
    else if KeywordOf(cards[|cards| - 1]) == Some(kw) then Some(|cards| - 1)
    else LastCardFor(cards[..|cards| - 1], kw)
  }

  /** The card at `i` sets `kw` and no later card does: it is the last one. */
  lemma LastCardIs(cards: seq<string>, kw: Keyword, i: nat)
    requires i < |cards| && KeywordOf(cards[i]) == Some(kw)
    requires forall j :: i < j < |cards| ==> KeywordOf(cards[j]) != Some(kw)
    ensures LastCardFor(cards, kw) == Some(i)
  {
    var r := LastCardFor(cards, kw);
    assert r.Some?;
  }

  /** The value the last card that sets `kw` gives it, if any card does. */
  function Setting(cards: seq<string>, kw: Keyword): Option<int> {
    match LastCardFor(cards, kw)
    case None => None
    case Some(i) => CardValue(cards[i])
  }

  datatype Keywords = Keywords(naxis: Option<int>, naxis1: Option<int>, bitpix: Option<int>)

  /** The three keywords of a header: the last setting wins; one bad value anywhere is an error. */
  function KeywordsOf(cards: seq<string>): Result<Keywords, FitsError> {
    if !AllParsable(cards) then Failure(BadKeywordValue)
    else Success(Keywords(Setting(cards, Naxis), Setting(cards, Naxis1), Setting(cards, Bitpix)))
  }

  /** Extending the cards by one changes a keyword's setting only if the new card sets it. */
  lemma SettingStep(cards: seq<string>, i: nat, kw: Keyword)
    requires i < |cards|
    ensures Setting(cards[..i + 1], kw) ==
      if KeywordOf(cards[i]) == Some(kw) then CardValue(cards[i]) else Setting(cards[..i], kw)
  {
    assert cards[..i + 1][..i] == cards[..i];
  }

  /** The keyword loop over the header cards; the if/elif chain on prefixes is KeywordOf. */
  method ParseKeywords(cards: seq<string>) returns (r: Result<Keywords, FitsError>)
    ensures r == KeywordsOf(cards)
  {
    var naxis: Option<int> := None;
    var naxis1: Option<int> := None;
    var bitpix: Option<int> := None;
    for i := 0 to |cards|
      invariant AllParsable(cards[..i])
      invariant naxis == Setting(cards[..i], Naxis)
      invariant naxis1 == Setting(cards[..i], Naxis1)
      invariant bitpix == Setting(cards[..i], Bitpix)
    {
      var card := cards[i];
      SettingStep(cards, i, Naxis);
      SettingStep(cards, i, Naxis1);
      SettingStep(cards, i, Bitpix);
      var key := KeywordOf(card);
      if key.Some? {
        var v := CardValue(card);
        if v.None? {
          assert cards[i] == card;
          return Failure(BadKeywordValue);
        }
        match key.value {
          case Naxis => naxis := v;
          case Naxis1 => naxis1 := v;
          case Bitpix => bitpix := v;
        }
      }
      assert !Unparsable(card);
      AllParsableStep(cards, i);
    }
    assert cards[..|cards|] == cards;
    return Success(Keywords(naxis, naxis1, bitpix));
  }

  /** What one more card does to the keywords read so far. */
  function NextKeywords(k: Keywords, card: string): Result<Keywords, FitsError> {
    match KeywordOf(card)
    case None => Success(k)
    case Some(kw) =>
      match CardValue(card)
      case None => Failure(BadKeywordValue)
      case Some(v) =>
        Success(match kw
          case Naxis => k.(naxis := Some(v))
          case Naxis1 => k.(naxis1 := Some(v))
          case Bitpix => k.(bitpix := Some(v)))
  }

  /** Reading the keywords of a header is a left fold of NextKeywords over its cards. */
  lemma KeywordsOfStep(cards: seq<string>, i: nat)
    requires i < |cards|
    ensures KeywordsOf(cards[..i + 1]) ==
      match KeywordsOf(cards[..i])
      case Failure(e) => Failure(e)
      case Success(k) => NextKeywords(k, cards[i])
  {
    var card := cards[i];
    AllParsablePrefix(cards, i);
    if AllParsable(cards[..i]) && !Unparsable(card) {
      SettingStep(cards, i, Naxis);
      SettingStep(cards, i, Naxis1);
      SettingStep(cards, i, Bitpix);
      var k := Keywords(Setting(cards[..i], Naxis), Setting(cards[..i], Naxis1), Setting(cards[..i], Bitpix));
      assert KeywordsOf(cards[..i]) == Success(k);
      match KeywordOf(card) {
        case None =>
          assert NextKeywords(k, card) == Success(k);
        case Some(kw) =>
          assert CardValue(card).Some?;
      }
    }
  }

  // ---------------------------------------------------------------------
  // Payload
  // ---------------------------------------------------------------------

  /** The numpy dtypes the reader chooses from: '>f4', '>f8' and '>i4'. */
  datatype ElementType = Float32BE | Float64BE | Int32BE

  /** BITPIX -32 and -64 are floats, 32 is int32, and anything else, absent included, reads as float32. */
  function ElementTypeFor(bitpix: Option<int>): (t: ElementType)
    ensures t == Float64BE <==> bitpix == Some(-64)
    ensures t == Int32BE <==> bitpix == Some(32)
    ensures t == Float32BE <==> bitpix != Some(-64) && bitpix != Some(32)
  {
    if bitpix == Some(-32) then Float32BE
    else if bitpix == Some(-64) then Float64BE
    else if bitpix == Some(32) then Int32BE
    else Float32BE
  }

  function Width(t: ElementType): nat {
    match t
    case Float32BE => 4
    case Float64BE => 8
    case Int32BE => 4
  }

  /** One element of the data array; floats keep their big-endian bytes. */
  datatype Sample = Float32Sample(bits: seq<byte>) | Float64Sample(bits: seq<byte>) | Int32Sample(value: int)

  /** The element type a sample was decoded as. */
  predicate OfType(s: Sample, t: ElementType) {
    match t
    case Float32BE => s.Float32Sample? && |s.bits| == 4
    case Float64BE => s.Float64Sample? && |s.bits| == 8
    case Int32BE => s.Int32Sample? && InInt32Range(s.value)
  }

  predicate InInt32Range(v: int) {
    -0x8000_0000 <= v < 0x8000_0000
  }

  /** Big-endian two's-complement 32-bit integer. */
  function DecodeInt32(b: seq<byte>): (v: int)
    requires |b| == 4
    ensures InInt32Range(v)
  {
    var u := ((b[0] as int * 256 + b[1] as int) * 256 + b[2] as int) * 256 + b[3] as int;
    if u >= 0x8000_0000 then u - 0x1_0000_0000 else u
  }

  /** The four big-endian bytes of a 32-bit integer, peeled off the low end one at a time. */
  function EncodeInt32(v: int): (b: seq<byte>)
    requires InInt32Range(v)
    ensures |b| == 4
  {
    var u := if v < 0 then v + 0x1_0000_0000 else v;
    var q3 := u / 256;
    var q2 := q3 / 256;
    [(q2 / 256) as byte, (q2 % 256) as byte, (q3 % 256) as byte, (u % 256) as byte]
  }

  lemma DecodeEncodeInt32(v: int)
    requires InInt32Range(v)
    ensures DecodeInt32(EncodeInt32(v)) == v
  {
    var u := if v < 0 then v + 0x1_0000_0000 else v;
    var q3 := u / 256;
    var q2 := q3 / 256;
    assert u == q3 * 256 + u % 256;
    assert q3 == q2 * 256 + q3 % 256;
    assert q2 == q2 / 256 * 256 + q2 % 256;
    var b := EncodeInt32(v);
    assert b[0] as int == q2 / 256 && b[1] as int == q2 % 256;
    assert b[2] as int == q3 % 256 && b[3] as int == u % 256;
    assert (b[0] as int * 256 + b[1] as int) == q2;
    assert (b[0] as int * 256 + b[1] as int) * 256 + b[2] as int == q3;
  }

  lemma EncodeDecodeInt32(b: seq<byte>)
    requires |b| == 4
    ensures EncodeInt32(DecodeInt32(b)) == b
  {
    var q2 := b[0] as int * 256 + b[1] as int;
    var q3 := q2 * 256 + b[2] as int;
    var u := q3 * 256 + b[3] as int;
    assert u / 256 == q3 && u % 256 == b[3] as int;
    assert q3 / 256 == q2 && q3 % 256 == b[2] as int;
    assert q2 / 256 == b[0] as int && q2 % 256 == b[1] as int;
  }

  function DecodeElement(t: ElementType, chunk: seq<byte>): (s: Sample)
    requires |chunk| == Width(t)
    ensures OfType(s, t)
  {
    match t
    case Float32BE => Float32Sample(chunk)
    case Float64BE => Float64Sample(chunk)
    case Int32BE => Int32Sample(DecodeInt32(chunk))
  }

  /** Consecutive elements of width `Width(t)`, in file order. */
  function DecodeElements(t: ElementType, payload: seq<byte>): (data: seq<Sample>)
    requires |payload| % Width(t) == 0
    ensures |data| * Width(t) == |payload|
    ensures forall i :: 0 <= i < |data| ==> OfType(data[i], t)
    ensures forall i :: 0 <= i < |data| ==>
      Width(t) * (i + 1) <= |payload| &&
      data[i] == DecodeElement(t, payload[Width(t) * i..Width(t) * (i + 1)])
    decreases |payload|
  {
    if payload == [] then []
    else
      var w := Width(t);
      var rest := DecodeElements(t, payload[w..]);
      var data := [DecodeElement(t, payload[..w])] + rest;
      forall i | 1 <= i < |data|
        ensures w * (i + 1) <= |payload| && data[i] == DecodeElement(t, payload[w * i..w * (i + 1)])
      {
        ChunkAfterFirst(payload, w, i - 1);
      }
      data
  }

  /** Chunk `j` of what follows the first chunk is chunk `j + 1` of the whole. */
  lemma ChunkAfterFirst(payload: seq<byte>, w: nat, j: nat)
    requires w * (j + 2) <= |payload|
    ensures w <= |payload| && payload[w..][w * j..w * (j + 1)] == payload[w * (j + 1)..w * (j + 2)]
  {
    assert w * (j + 1) + w == w * (j + 2);
  }

  /** `np.frombuffer(payload, dtype)`: a length that is not a whole number of elements raises. */
  function DecodePayload(t: ElementType, payload: seq<byte>): (r: Result<seq<Sample>, FitsError>)
    ensures r.Failure? <==> |payload| % Width(t) != 0
    ensures r.Success? ==> |r.value| * Width(t) == |payload|
  {
    if |payload| % Width(t) != 0 then Failure(PayloadNotWholeElements)
    else Success(DecodeElements(t, payload))
  }

  /** `s[:k]` under Python's slice rules: a negative `k` counts from the end. */
  function SliceTo<T>(s: seq<T>, k: int): (r: seq<T>)
    ensures r <= s
    ensures k >= 0 ==> |r| == Min(k, |s|)
    ensures k < 0 ==> |r| == if |s| + k >= 0 then |s| + k else 0
  {
    if k >= 0 then (if k <= |s| then s[..k] else s)
    else if |s| + k >= 0 then s[..|s| + k]
    else []
  }

  /** `if naxis1: data = data[:naxis1]` -- an absent or zero NAXIS1 leaves the data alone. */
  function TrimToNaxis1(data: seq<Sample>, naxis1: Option<int>): (r: seq<Sample>)
    ensures r <= data
    ensures naxis1.None? || naxis1 == Some(0) ==> r == data
    ensures naxis1.Some? && naxis1.value > 0 ==> |r| == Min(naxis1.value, |data|)
  {
    if naxis1.Some? && naxis1.value != 0 then SliceTo(data, naxis1.value) else data
  }

  // ---------------------------------------------------------------------
  // The reader
  // ---------------------------------------------------------------------

  /** What `read_fits_simple` returns for a file (None is a Failure). */
  function ReadSpec(file: seq<byte>): Result<seq<Sample>, FitsError> {
    match FirstEnd(file)
    case None => Failure(MissingEnd)
    case Some(e) => ReadAfterHeader(file, e + 1)
  }

  /** The reader once the header is known to hold `cardCount` cards: the keyword loop, then the data. */
  function ReadAfterHeader(file: seq<byte>, cardCount: nat): Result<seq<Sample>, FitsError> {
    match KeywordsOf(HeaderCards(file, cardCount))
    case Failure(err) => Failure(err)
    case Success(kw) => ReadData(file, DataOffset(cardCount), kw)
  }

  /** The part of the reader after the header: seek, decode by BITPIX, trim to NAXIS1. */
  function ReadData(file: seq<byte>, offset: nat, kw: Keywords): Result<seq<Sample>, FitsError> {
    match DecodePayload(ElementTypeFor(kw.bitpix), file[Min(offset, |file|)..])
    case Failure(err) => Failure(err)
    case Success(all) =>
      var data := TrimToNaxis1(all, kw.naxis1);
      if data == [] then Failure(EmptyData) else Success(data)
  }

  /** Once the first END card is known, the reader goes on with the cards up to it. */
  lemma ReadSpecAfterEnd(file: seq<byte>, e: nat)
    requires FirstEnd(file) == Some(e)
    ensures ReadSpec(file) == ReadAfterHeader(file, e + 1)
  {
  }

  /** The reader's result once the header, the keywords and the payload are known. */
  lemma ReadSpecOf(file: seq<byte>, e: nat, kw: Keywords, all: seq<Sample>)
    requires FirstEnd(file) == Some(e)
    requires KeywordsOf(HeaderCards(file, e + 1)) == Success(kw)
    requires DecodePayload(ElementTypeFor(kw.bitpix), file[Min(DataOffset(e + 1), |file|)..]) == Success(all)
    ensures TrimToNaxis1(all, kw.naxis1) == [] ==> ReadSpec(file) == Failure(EmptyData)
    ensures TrimToNaxis1(all, kw.naxis1) != [] ==> ReadSpec(file) == Success(TrimToNaxis1(all, kw.naxis1))
  {
    ReadSpecAfterEnd(file, e);
    var data := TrimToNaxis1(all, kw.naxis1);
    assert ReadData(file, DataOffset(e + 1), kw) == if data == [] then Failure(EmptyData) else Success(data);
    assert ReadAfterHeader(file, e + 1) == ReadData(file, DataOffset(e + 1), kw);
  }

  /** The reader: header scan, keyword loop, seek to the data, decode and trim. */
  method ReadFitsSimple(file: seq<byte>) returns (r: Result<seq<Sample>, FitsError>)
    ensures r == ReadSpec(file)
  {
    var header := ScanHeader(file);
    if header.Failure? {
      return Failure(header.error);
    }
    var cards := header.value;
    var keywords := ParseKeywords(cards);
    if keywords.Failure? {
      return Failure(keywords.error);
    }
    var kw := keywords.value;
    var totalHeaderSize := DataOffset(|cards|);
    var t := ElementTypeFor(kw.bitpix);
    var decoded := DecodePayload(t, file[Min(totalHeaderSize, |file|)..]);
    if decoded.Failure? {
      return Failure(decoded.error);
    }
    var data := TrimToNaxis1(decoded.value, kw.naxis1);
    if data == [] {
      return Failure(EmptyData);
    }
    return Success(data);
  }
  // ---------------------------------------------------------------------
  // The header loop as written, on a file without an END card
  // ---------------------------------------------------------------------

  /**
   * The source's `while True` header loop, run for at most `fuel` more
   * reads from card `k`: Some(n) when it stops after reading n cards, None
   * while it is still reading.  It has no exit for the end of the file.
   */
  function ScanAsWritten(file: seq<byte>, k: nat, fuel: nat): Option<nat>
    decreases fuel
  {
    if fuel == 0 then None
    else if IsEndCard(Card(file, k)) then Some(k + 1)
    else ScanAsWritten(file, k + 1, fuel - 1)
  }

  /** Past the end of the file every read returns nothing, so the card text is empty. */
  lemma CardPastEnd(file: seq<byte>, k: nat)
    requires CARD_SIZE * k >= |file|
    ensures Card(file, k) == [] && !IsEndCard(Card(file, k))
  {
    assert ReadAt(file, CARD_SIZE * k, CARD_SIZE) == [];
  }

  /** Without an END card the loop as written never stops, however many reads it is given. */
  lemma {:induction false} AsWrittenNeverStops(file: seq<byte>, k: nat, fuel: nat)
    requires FindEndFrom(file, k).None?
    ensures ScanAsWritten(file, k, fuel).None?
    decreases fuel
  {
    if fuel > 0 {
      if CARD_SIZE * k >= |file| {
        CardPastEnd(file, k);
        assert FindEndFrom(file, k + 1).None?;
      }
      AsWrittenNeverStops(file, k + 1, fuel - 1);
    }
  }

  /** With an END card, the loop as written stops after the same cards ScanHeader returns. */
  lemma {:induction false} AsWrittenStopsAtEnd(file: seq<byte>, k: nat, fuel: nat)
    requires FindEndFrom(file, k).Some? && k + fuel > FindEndFrom(file, k).value
    ensures ScanAsWritten(file, k, fuel) == Some(FindEndFrom(file, k).value + 1)
    decreases fuel
  {
    FindEndFromSpec(file, k);
    if !IsEndCard(Card(file, k)) {
      AsWrittenStopsAtEnd(file, k + 1, fuel - 1);
    }
  }

  /**
   * An empty file (an interrupted download, say) has no END card: the loop
   * as written reads empty cards forever, while the reader here fails.
   */
  lemma EmptyFileHasNoEnd()
    ensures forall fuel: nat :: ScanAsWritten([], 0, fuel).None?
    ensures ReadSpec([]) == Failure(MissingEnd)
  {
    forall fuel: nat
      ensures ScanAsWritten([], 0, fuel).None?
    {
      AsWrittenNeverStops([], 0, fuel);
    }
  }
}
