/** The length-framed byte stream of `git cat-file --batch`, as the identifier gate reads it. */
module BatchStream {
  import opened PyText
  import PyNumber

  newtype Byte = x: int | 0 <= x < 256
  type Bytes = seq<Byte>

  const NEWLINE: Byte := 10

  predicate IsByteSpace(b: Byte) { b == 32 || 9 <= b <= 13 }

  // Slices and searches accept positions before the start: those count from the end.

  function Clamp(i: int, n: nat): (r: nat)
    ensures r <= n
  {
    if i < 0 then (if n + i < 0 then 0 else n + i) else if i > n then n else i
  }

  function Slice(s: Bytes, lo: int, hi: int): Bytes {
    var a, b := Clamp(lo, |s|), Clamp(hi, |s|);
    if a <= b then s[a..b] else []
  }

  predicate IsNewline(b: Byte) { b == NEWLINE }

  /** `s.index(b"\n", pos)`: None stands for the ValueError. */
  function IndexNewline(s: Bytes, pos: int): Option<nat> {
    var start := Clamp(pos, |s|);
    var end := start + WordLength(s[start..], IsNewline);
    if end == |s| then None else Some(end)
  }

  /** `int` on a byte string. */
  function ByteChar(b: Byte): char { if b < 128 && !(28 <= b <= 31) then b as char else '?' }

  function ToText(s: Bytes): string { seq(|s|, i requires 0 <= i < |s| => ByteChar(s[i])) }

  /** One turn of the read loop at `pos`: the blob's data and the next position. */
  datatype Frame = Frame(data: Bytes, next: int)

  function ReadFrame(out: Bytes, pos: int, sizeOf: Bytes -> Option<int>): Option<Frame> {
    match IndexNewline(out, pos)
    case None => None
    case Some(headerEnd) =>
      match sizeOf(Slice(out, pos, headerEnd))
      case None => None
      case Some(size) => Some(Frame(Slice(out, headerEnd + 1, headerEnd + 1 + size), headerEnd + 1 + size + 1))
  }

  /** The number in a header's third field. */
  function SizeOf(header: Bytes): Option<int> {
    var fields := Words(header, IsByteSpace);
    if |fields| < 3 then None else PyNumber.Int(ToText(fields[2]))
  }

  function Reader(out: Bytes, sizeOf: Bytes -> Option<int>): int -> Option<Frame> {
    (pos: int) => ReadFrame(out, pos, sizeOf)
  }

  /** What the stream holds for `count` blobs from `pos` on; None where reading it raises. */
  function Frames(read: int -> Option<Frame>, pos: int, count: nat): (r: Option<seq<Bytes>>)
    ensures r.Some? ==> |r.value| == count
    decreases count
  {
    if count == 0 then Some([])
    else match read(pos)
         case None => None
         case Some(f) =>
           match Frames(read, f.next, count - 1)
           case None => None
           case Some(rest) => Some([f.data] + rest)
  }

  // ---- The producer's side of the stream

  datatype Object = Object(header: Bytes, data: Bytes)

  /** A header is one line giving the size of the data behind it. */
  ghost predicate Describes(o: Object, sizeOf: Bytes -> Option<int>) {
    NEWLINE !in o.header && sizeOf(o.header) == Some(|o.data|)
  }

  ghost predicate WellFramed(objects: seq<Object>, sizeOf: Bytes -> Option<int>) {
    forall i :: 0 <= i < |objects| ==> Describes(objects[i], sizeOf)
  }

  function Framed(o: Object): Bytes { o.header + ([NEWLINE] + (o.data + [NEWLINE])) }

  function Encode(objects: seq<Object>): Bytes {
    if objects == [] then []
    else Framed(objects[0]) + Encode(objects[1..])
  }

  function Contents(objects: seq<Object>): seq<Bytes> {
    if objects == [] then [] else [objects[0].data] + Contents(objects[1..])
  }

  // ---- The header "<name> <kind> <size>" describes its object

  ghost predicate Token(s: Bytes) { s != [] && forall i :: 0 <= i < |s| ==> !IsByteSpace(s[i]) }

  function FromDigits(s: string): (r: Bytes)
    requires forall i :: 0 <= i < |s| ==> PyNumber.IsDigit(s[i])
    ensures |r| == |s| && forall i :: 0 <= i < |s| ==> r[i] as char == s[i]
  {
    seq(|s|, i requires 0 <= i < |s| && PyNumber.IsDigit(s[i]) => s[i] as int as Byte)
  }

  function Header(name: Bytes, kind: Bytes, size: nat): Bytes {
    name + ([32] + (kind + ([32] + FromDigits(PyNumber.Digits(size)))))
  }

  lemma ThreeWords(a: Bytes, b: Bytes, c: Bytes)
    requires Token(a) && Token(b) && Token(c)
    ensures Words(a + ([32] + (b + ([32] + c))), IsByteSpace) == [a, b, c]
  {
    WordThenSeparator(a, 32, b + ([32] + c), IsByteSpace);
    WordThenSeparator(b, 32, c, IsByteSpace);
    OneWord(c, IsByteSpace);
  }

  lemma SizeField(n: nat)
    ensures Token(FromDigits(PyNumber.Digits(n)))
    ensures PyNumber.Int(ToText(FromDigits(PyNumber.Digits(n)))) == Some(n)
  {
    var s := PyNumber.Digits(n);
    forall i | 0 <= i < |s| ensures !IsByteSpace(FromDigits(s)[i]) {
      assert FromDigits(s)[i] as char == s[i];
      assert PyNumber.IsDigit(s[i]);
    }
    assert ToText(FromDigits(s)) == PyNumber.Str(n);
    PyNumber.IntStr(n);
  }

  lemma HeaderDescribes(name: Bytes, kind: Bytes, size: nat)
    requires Token(name) && Token(kind)
    ensures NEWLINE !in Header(name, kind, size) && SizeOf(Header(name, kind, size)) == Some(size)
  {
    SizeField(size);
    ThreeWords(name, kind, FromDigits(PyNumber.Digits(size)));
  }

  // ---- Round trip

  lemma HeaderEnd(out: Bytes, before: Bytes, h: Bytes, tail: Bytes)
    requires out == before + (h + tail) && NEWLINE !in h && tail != [] && tail[0] == NEWLINE
    ensures IndexNewline(out, |before|) == Some(|before| + |h|)
  {
    assert out[|before|..] == h + tail;
    WordLengthIs(h, tail, IsNewline);
  }

  lemma SliceIs(out: Bytes, a: Bytes, b: Bytes, c: Bytes)
    requires out == a + (b + c)
    ensures Slice(out, |a|, |a| + |b|) == b
  {}

  lemma Assoc(a: Bytes, b: Bytes, c: Bytes)
    ensures (a + b) + c == a + (b + c)
  {}

  /** The stream around one object: what precedes its header, and what precedes its data. */
  lemma Around(before: Bytes, o: Object, after: Bytes)
    ensures Framed(o) + after == o.header + ([NEWLINE] + (o.data + ([NEWLINE] + after)))
    ensures before + (Framed(o) + after) == (before + (o.header + [NEWLINE])) + (o.data + ([NEWLINE] + after))
  {
    Assoc(o.data, [NEWLINE], after);
    Assoc([NEWLINE], o.data + [NEWLINE], after);
    Assoc(o.header, [NEWLINE] + (o.data + [NEWLINE]), after);
    Assoc(o.header, [NEWLINE], o.data + ([NEWLINE] + after));
    Assoc(before, o.header + [NEWLINE], o.data + ([NEWLINE] + after));
  }

  lemma FrameRoundTrip(before: Bytes, o: Object, after: Bytes, sizeOf: Bytes -> Option<int>)
    requires Describes(o, sizeOf)
    ensures ReadFrame(before + (Framed(o) + after), |before|, sizeOf) == Some(Frame(o.data, |before + Framed(o)|))
  {
    var out, h := before + (Framed(o) + after), o.header;
    var size := |o.data|;
    Around(before, o, after);
    HeaderEnd(out, before, h, [NEWLINE] + (o.data + ([NEWLINE] + after)));
    SliceIs(out, before, h, [NEWLINE] + (o.data + ([NEWLINE] + after)));
    SliceIs(out, before + (h + [NEWLINE]), o.data, [NEWLINE] + after);
    FrameOf(out, |before|, |before| + |h|, sizeOf, size);
  }

  lemma FrameOf(out: Bytes, pos: nat, end: nat, sizeOf: Bytes -> Option<int>, size: nat)
    requires IndexNewline(out, pos) == Some(end) && sizeOf(Slice(out, pos, end)) == Some(size)
    ensures ReadFrame(out, pos, sizeOf) == Some(Frame(Slice(out, end + 1, end + 1 + size), end + 1 + size + 1))
  {}

  /** One object in front of a stream that is read back. */
  lemma FramesStep(read: int -> Option<Frame>, pos: int, count: nat, f: Frame, rest: seq<Bytes>)
    requires read(pos) == Some(f) && Frames(read, f.next, count) == Some(rest)
    ensures Frames(read, pos, count + 1) == Some([f.data] + rest)
  {}

  lemma FirstFrame(out: Bytes, before: Bytes, o: Object, tail: Bytes, sizeOf: Bytes -> Option<int>)
    requires Describes(o, sizeOf) && out == before + (Framed(o) + tail)
    ensures out == (before + Framed(o)) + tail
    ensures Reader(out, sizeOf)(|before|) == Some(Frame(o.data, |before + Framed(o)|))
  {
    Assoc(before, Framed(o), tail);
    FrameRoundTrip(before, o, tail, sizeOf);
  }

  lemma EncodeFirst(objects: seq<Object>)
    requires objects != []
    ensures Encode(objects) == Framed(objects[0]) + Encode(objects[1..])
    ensures Contents(objects) == [objects[0].data] + Contents(objects[1..])
  {}

  lemma {:induction false} StreamBehind(out: Bytes, before: Bytes, objects: seq<Object>, sizeOf: Bytes -> Option<int>)
    requires WellFramed(objects, sizeOf) && out == before + Encode(objects)
    ensures Frames(Reader(out, sizeOf), |before|, |objects|) == Some(Contents(objects))
    decreases |objects|
  {
    if objects != [] {
      var o, rest := objects[0], objects[1..];
      EncodeFirst(objects);
      FirstFrame(out, before, o, Encode(rest), sizeOf);
      StreamBehind(out, before + Framed(o), rest, sizeOf);
      FramesStep(Reader(out, sizeOf), |before|, |rest|, Frame(o.data, |before + Framed(o)|), Contents(rest));
    }
  }

  /** Reading undoes printing, whatever bytes the contents hold. */
  lemma StreamRoundTrip(objects: seq<Object>, sizeOf: Bytes -> Option<int>)
    requires WellFramed(objects, sizeOf)
    ensures Frames(Reader(Encode(objects), sizeOf), 0, |objects|) == Some(Contents(objects))
  {
    StreamBehind(Encode(objects), [], objects, sizeOf);
  }
}
