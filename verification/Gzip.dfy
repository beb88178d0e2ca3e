/**
 * Splitting a file into gzip members (section 2.3 of RFC 1952), keeping every
 * byte that is not payload.  The decompressor is an oracle that reads one member
 * from the start of its input.
 */
module Gzip {
  import opened Common

  newtype byte = x: int | 0 <= x < 256

  type Bytes = seq<byte>

  /** A complete member at the start of the input: its payload and its length. */
  type Inflate = Bytes -> Option<(Bytes, nat)>

  datatype Piece =
    | Padding(zeros: Bytes)
    | Member(header: Bytes, body: Bytes, trailer: Bytes, payload: Bytes)

  const TRAILER_SIZE := 8

  predicate HasFlag(flags: byte, bit: nat)
    requires bit > 0
  {
    (flags as int / bit) % 2 == 1
  }

  // ------------------------------------------------------------------------ headers

  /** The first NUL at or after `from`. */
  function FindNul(s: Bytes, from: nat): (r: Option<nat>)
    ensures r.Some? ==> from <= r.value < |s| && s[r.value] == 0 && forall i :: from <= i < r.value ==> s[i] != 0
    ensures r.None? ==> forall i :: from <= i < |s| ==> s[i] != 0
    decreases if from < |s| then |s| - from else 0
  {
    if from >= |s| then None
    else if s[from] == 0 then Some(from)
    else FindNul(s, from + 1)
  }

  function AfterExtra(s: Bytes): Option<nat>
    requires |s| >= 10
  {
    if !HasFlag(s[3], 4) then Some(10)
    else if |s| < 12 then None
    else
      var end := 12 + s[10] as nat + 256 * s[11] as nat;
      if end > |s| then None else Some(end)
  }

  /** One of the two NUL-terminated fields. */
  function AfterText(s: Bytes, bit: nat, from: nat): Option<nat>
    requires |s| >= 10 && bit > 0
  {
    if !HasFlag(s[3], bit) then Some(from)
    else match FindNul(s, from)
      case None => None
      case Some(end) => Some(end + 1)
  }

  /** Where the header at the start of s ends: magic, flags, extra field, name, comment, checksum. */
  function HeaderEnd(s: Bytes): Option<nat> {
    if |s| < 10 || s[0] != 0x1f || s[1] != 0x8b || s[2] != 8 || s[3] >= 0x20 then None
    else match AfterExtra(s)
      case None => None
      case Some(e1) =>
        match AfterText(s, 8, e1)
        case None => None
        case Some(e2) =>
          match AfterText(s, 16, e2)
          case None => None
          case Some(e3) =>
            var e4 := if HasFlag(s[3], 2) then e3 + 2 else e3;
            if e4 > |s| then None else Some(e4)
  }

  // ------------------------------------------------- headers as the standard lays them out

  /** The parts of a header: the text hint, time, compression flags and system, and the four optional fields. */
  datatype Fields = Fields(
    text: bool, fixed: Bytes, extra: Option<Bytes>, name: Option<Bytes>, comment: Option<Bytes>, checksum: Option<Bytes>)

  predicate ValidFields(f: Fields) {
    && |f.fixed| == 6
    && (f.extra.Some? ==> |f.extra.value| < 65536)
    && (f.name.Some? ==> 0 !in f.name.value)
    && (f.comment.Some? ==> 0 !in f.comment.value)
    && (f.checksum.Some? ==> |f.checksum.value| == 2)
  }

  function Bit(b: bool, weight: byte): (r: byte)
    requires weight <= 16
    ensures r <= weight
  {
    if b then weight else 0
  }

  function Flags(f: Fields): byte {
    Bit(f.text, 1) + Bit(f.checksum.Some?, 2) + Bit(f.extra.Some?, 4) + Bit(f.name.Some?, 8) + Bit(f.comment.Some?, 16)
  }

  /** Two length bytes, the low one first, and the field. */
  function ExtraBytes(extra: Option<Bytes>): Bytes
    requires extra.Some? ==> |extra.value| < 65536
  {
    match extra
    case None => []
    case Some(b) => [(|b| % 256) as byte, (|b| / 256) as byte] + b
  }

  /** The text and its terminating zero. */
  function TextBytes(text: Option<Bytes>): Bytes {
    match text
    case None => []
    case Some(b) => b + [0]
  }

  function ChecksumBytes(checksum: Option<Bytes>): Bytes {
    if checksum.Some? then checksum.value else []
  }

  function Start(f: Fields): Bytes {
    [0x1f, 0x8b, 8, Flags(f)] + f.fixed
  }

  function HeaderBytes(f: Fields): Bytes
    requires ValidFields(f)
  {
    Start(f) + ExtraBytes(f.extra) + TextBytes(f.name) + TextBytes(f.comment) + ChecksumBytes(f.checksum)
  }

  lemma FlagsAreBits(f: Fields)
    ensures var b := Flags(f);
      && b < 0x20 && (HasFlag(b, 2) <==> f.checksum.Some?) && (HasFlag(b, 4) <==> f.extra.Some?)
      && (HasFlag(b, 8) <==> f.name.Some?) && (HasFlag(b, 16) <==> f.comment.Some?)
  {
  }

  /** Every flag byte without reserved bits is that of its bits. */
  lemma BitsAreFlags(b: byte, f: Fields)
    requires b < 0x20 && (f.text <==> HasFlag(b, 1)) && (f.checksum.Some? <==> HasFlag(b, 2)) && (f.extra.Some? <==> HasFlag(b, 4))
    requires (f.name.Some? <==> HasFlag(b, 8)) && (f.comment.Some? <==> HasFlag(b, 16))
    ensures Flags(f) == b
  {
  }

  /** The extra field, if it is present, is what lies between two positions. */
  predicate ExtraAt(s: Bytes, from: nat, e: nat, present: bool, x: Option<Bytes>) {
    from <= e <= |s| && (x.Some? <==> present) && (x.Some? ==> |x.value| < 65536) && s[from..e] == ExtraBytes(x)
  }

  predicate TextAt(s: Bytes, from: nat, e: nat, present: bool, x: Option<Bytes>) {
    from <= e <= |s| && (x.Some? <==> present) && (x.Some? ==> 0 !in x.value) && s[from..e] == TextBytes(x)
  }

  lemma ExtraFound(s: Bytes, e: nat) returns (x: Option<Bytes>)
    requires |s| >= 10 && AfterExtra(s) == Some(e)
    ensures ExtraAt(s, 10, e, HasFlag(s[3], 4), x)
  {
    hide HasFlag;
    x := None;
    if HasFlag(s[3], 4) {
      x := Some(s[12..e]);
      assert s[10..e] == [s[10], s[11]] + s[12..e];
      assert |s[12..e]| == s[10] as nat + 256 * s[11] as nat;
    }
  }

  lemma ExtraIsFound(s: Bytes, e: nat, x: Option<Bytes>)
    requires |s| >= 10 && ExtraAt(s, 10, e, HasFlag(s[3], 4), x)
    ensures AfterExtra(s) == Some(e)
  {
    hide HasFlag;
    if x.Some? {
      assert s[10..e][0] == s[10] && s[10..e][1] == s[11] && |s[10..e]| == 2 + |x.value|;
      assert s[10] as nat + 256 * s[11] as nat == |x.value|;
    }
  }

  lemma TextFound(s: Bytes, bit: nat, from: nat, e: nat) returns (x: Option<Bytes>)
    requires |s| >= 10 && bit > 0 && from <= |s| && AfterText(s, bit, from) == Some(e)
    ensures TextAt(s, from, e, HasFlag(s[3], bit), x)
  {
    hide HasFlag, FindNul;
    x := None;
    if HasFlag(s[3], bit) {
      x := Some(s[from..e - 1]);
      assert s[from..e] == s[from..e - 1] + [s[e - 1]];
    }
  }

  lemma TextIsFound(s: Bytes, bit: nat, from: nat, e: nat, x: Option<Bytes>)
    requires |s| >= 10 && bit > 0 && TextAt(s, from, e, HasFlag(s[3], bit), x)
    ensures AfterText(s, bit, from) == Some(e)
  {
    hide HasFlag, FindNul;
    if x.Some? {
      TextEnds(s, from, e, x.value);
      FirstNul(s, from, e - 1);
    } else {
      assert |s[from..e]| == 0;
    }
  }

  lemma TextEnds(s: Bytes, from: nat, e: nat, text: Bytes)
    requires from <= e <= |s| && s[from..e] == text + [0] && 0 !in text
    ensures from < e && s[e - 1] == 0 && forall i :: from <= i < e - 1 ==> s[i] != 0
  {
    var part := s[from..e];
    assert |part| == |text| + 1 && part[|text|] == 0;
    forall i | from <= i < e - 1 ensures s[i] != 0 {
      assert part[i - from] == s[i] && text[i - from] == s[i];
    }
  }

  lemma FirstNul(s: Bytes, from: nat, end: nat)
    requires from <= end < |s| && s[end] == 0 && forall i :: from <= i < end ==> s[i] != 0
    ensures FindNul(s, from) == Some(end)
  {
  }
  lemma NextPart(s: Bytes, at: nat, part: Bytes, rest: Bytes)
    requires at <= |s| && part + rest <= s[at..]
    ensures at + |part| <= |s| && s[at..at + |part|] == part && rest <= s[at + |part|..]
  {
    assert s[at..][..|part|] == part;
  }

  predicate Joined(whole: Bytes, a: Bytes, b: Bytes, c: Bytes, d: Bytes, e: Bytes) {
    whole == a + b + c + d + e
  }

  /** Five consecutive parts of the input, and where they end. */
  lemma FiveParts(s: Bytes, whole: Bytes, a: Bytes, b: Bytes, c: Bytes, d: Bytes, e: Bytes, i: nat, j: nat, k: nat, l: nat)
    requires Joined(whole, a, b, c, d, e) && whole <= s
    requires i == |a| && j == i + |b| && k == j + |c| && l == k + |d|
    ensures i <= j <= k <= l && l + |e| == |whole| <= |s|
    ensures s[..i] == a && s[i..j] == b && s[j..k] == c && s[k..l] == d
  {
    assert whole == a + (b + (c + (d + (e + [])))) && s[0..] == s;
    NextPart(s, 0, a, b + (c + (d + (e + []))));
    NextPart(s, i, b, c + (d + (e + [])));
    NextPart(s, j, c, d + (e + []));
    NextPart(s, k, d, e + []);
    NextPart(s, l, e, []);
  }

  lemma StartIs(s: Bytes, f: Fields)
    requires |f.fixed| == 6 && |s| >= 10
    ensures s[..10] == Start(f) <==> s[0] == 0x1f && s[1] == 0x8b && s[2] == 8 && s[3] == Flags(f) && s[4..10] == f.fixed
  {
    hide Flags;
    assert s[..10] == [s[0], s[1], s[2], s[3]] + s[4..10];
  }

  lemma HeaderStart(s: Bytes, f: Fields)
    requires |f.fixed| == 6 && |s| >= 10 && s[..10] == Start(f)
    ensures s[0] == 0x1f && s[1] == 0x8b && s[2] == 8 && s[3] == Flags(f)
  {
    hide Flags;
    StartIs(s, f);
  }

  lemma StartIsTen(f: Fields)
    requires |f.fixed| == 6
    ensures |Start(f)| == 10
  {
  }

  lemma HeaderBytesAre(f: Fields)
    requires ValidFields(f)
    ensures Joined(HeaderBytes(f), Start(f), ExtraBytes(f.extra), TextBytes(f.name), TextBytes(f.comment), ChecksumBytes(f.checksum))
  {
    hide Start, ExtraBytes, TextBytes, ChecksumBytes;
  }

  /** The parts of a header, one after the other. */
  lemma HeaderParts(s: Bytes, f: Fields, e1: nat, e2: nat, e3: nat)
    requires ValidFields(f) && HeaderBytes(f) <= s
    requires e1 == 10 + |ExtraBytes(f.extra)| && e2 == e1 + |TextBytes(f.name)| && e3 == e2 + |TextBytes(f.comment)|
    ensures |s| >= 10 && s[0] == 0x1f && s[1] == 0x8b && s[2] == 8 && s[3] < 0x20 && (HasFlag(s[3], 2) <==> f.checksum.Some?)
    ensures ExtraAt(s, 10, e1, HasFlag(s[3], 4), f.extra)
    ensures TextAt(s, e1, e2, HasFlag(s[3], 8), f.name) && TextAt(s, e2, e3, HasFlag(s[3], 16), f.comment)
    ensures e3 + |ChecksumBytes(f.checksum)| == |HeaderBytes(f)| <= |s|
  {
    StartIsTen(f);
    HeaderBytesAre(f);
    hide HasFlag, Flags, Start, ExtraBytes, TextBytes, ChecksumBytes, HeaderBytes, Joined;
    FiveParts(s, HeaderBytes(f), Start(f), ExtraBytes(f.extra), TextBytes(f.name), TextBytes(f.comment), ChecksumBytes(f.checksum), 10, e1, e2, e3);
    HeaderStart(s, f);
    FlagsAreBits(f);
  }

  /** A header of the standard at the start of the input ends where the parser says. */
  lemma HeaderIsFound(s: Bytes, f: Fields)
    requires ValidFields(f) && HeaderBytes(f) <= s
    ensures HeaderEnd(s) == Some(|HeaderBytes(f)|)
  {
    hide HasFlag, AfterExtra, AfterText, Flags, ExtraBytes, TextBytes, HeaderBytes, ExtraAt;
    var e1 := 10 + |ExtraBytes(f.extra)|;
    var e2 := e1 + |TextBytes(f.name)|;
    var e3 := e2 + |TextBytes(f.comment)|;
    HeaderParts(s, f, e1, e2, e3);
    ExtraIsFound(s, e1, f.extra);
    TextIsFound(s, 8, e1, e2, f.name);
    TextIsFound(s, 16, e2, e3, f.comment);
  }

  /** Where the parser finds the end of a header, the input starts with a header of the standard. */
  lemma FoundIsHeader(s: Bytes, e: nat) returns (f: Fields)
    requires HeaderEnd(s) == Some(e)
    ensures ValidFields(f) && e <= |s| && s[..e] == HeaderBytes(f)
  {
    hide HasFlag, AfterExtra, AfterText, Flags, ExtraBytes, TextBytes, Start;
    var e1 := AfterExtra(s).value;
    var extra := ExtraFound(s, e1);
    var e2 := AfterText(s, 8, e1).value;
    var name := TextFound(s, 8, e1, e2);
    var e3 := AfterText(s, 16, e2).value;
    var comment := TextFound(s, 16, e2, e3);
    var checksum := if HasFlag(s[3], 2) then Some(s[e3..e]) else None;
    f := Fields(HasFlag(s[3], 1), s[4..10], extra, name, comment, checksum);
    BitsAreFlags(s[3], f);
    StartIs(s, f);
    JoinedParts(s, 10, e1, e2, e3, e);
  }

  lemma JoinedParts(s: Bytes, i: nat, j: nat, k: nat, l: nat, m: nat)
    requires i <= j <= k <= l <= m <= |s|
    ensures s[..m] == s[..i] + s[i..j] + s[j..k] + s[k..l] + s[l..m]
  {
  }

  /** The parser accepts exactly the headers the standard lays out, and finds their end. */
  lemma HeaderEndIff(s: Bytes, e: nat)
    ensures HeaderEnd(s) == Some(e) <==> exists f :: ValidFields(f) && HeaderBytes(f) <= s && |HeaderBytes(f)| == e
  {
    hide HeaderEnd, HeaderBytes, ValidFields;
    if HeaderEnd(s) == Some(e) {
      var f := FoundIsHeader(s, e);
      assert HeaderBytes(f) <= s;
    }
    if f :| ValidFields(f) && HeaderBytes(f) <= s && |HeaderBytes(f)| == e {
      HeaderIsFound(s, f);
    }
  }

  // ------------------------------------------------------------------ segmentations

  predicate AllZero(s: Bytes) {
    forall i :: 0 <= i < |s| ==> s[i] == 0
  }

  /** Padding is not empty and runs up to the next non-zero byte. */
  predicate IsPadding(s: Bytes, zeros: Bytes) {
    zeros != [] && zeros <= s && AllZero(zeros) && (|zeros| == |s| || s[|zeros|] != 0)
  }

  predicate IsMember(inflate: Inflate, s: Bytes, m: Piece) {
    && m.Member? && HeaderEnd(s) == Some(|m.header|) && |m.trailer| == TRAILER_SIZE
    && |m.header + m.body + m.trailer| <= |s| && m.header + m.body + m.trailer <= s
    && inflate(s) == Some((m.payload, |m.header + m.body + m.trailer|))
  }

  function Raw(p: Piece): Bytes {
    match p
    case Padding(zeros) => zeros
    case Member(header, body, trailer, _) => header + body + trailer
  }

  function Meta(p: Piece): Bytes {
    match p
    case Padding(zeros) => zeros
    case Member(header, _, trailer, _) => header + trailer
  }

  function PayloadOf(p: Piece): Bytes {
    if p.Member? then p.payload else []
  }

  function Join(pieces: seq<Piece>, part: Piece -> Bytes): Bytes {
    if pieces == [] then [] else part(pieces[0]) + Join(pieces[1..], part)
  }

  function Members(pieces: seq<Piece>): nat {
    if pieces == [] then 0 else (if pieces[0].Member? then 1 else 0) + Members(pieces[1..])
  }

  predicate IsPiece(inflate: Inflate, s: Bytes, first: bool, p: Piece) {
    if p.Padding? then !first && IsPadding(s, p.zeros) else IsMember(inflate, s, p)
  }

  /** s is exactly these pieces, one after the other; a file does not start with padding. */
  predicate Splits(inflate: Inflate, s: Bytes, first: bool, pieces: seq<Piece>)
    decreases |pieces|
  {
    if pieces == [] then s == []
    else
      && IsPiece(inflate, s, first, pieces[0])
      && Splits(inflate, s[|Raw(pieces[0])|..], false, pieces[1..])
  }

  /** Every member is a header of the standard, a body, and eight bytes of trailer; padding is zeros. */
  lemma {:induction false} PiecesAreLaidOut(inflate: Inflate, s: Bytes, first: bool, pieces: seq<Piece>)
    requires Splits(inflate, s, first, pieces)
    ensures forall p :: p in pieces && p.Member? ==> |p.trailer| == 8 && exists f :: ValidFields(f) && HeaderBytes(f) == p.header
    ensures forall p :: p in pieces && p.Padding? ==> p.zeros != [] && forall b :: b in p.zeros ==> b == 0
    decreases |pieces|
  {
    hide HeaderEnd, HeaderBytes, ValidFields;
    if pieces != [] {
      var p := pieces[0];
      if p.Member? {
        HeaderEndIff(s, |p.header|);
        var f :| ValidFields(f) && HeaderBytes(f) <= s && |HeaderBytes(f)| == |p.header|;
        assert p.header == (p.header + p.body + p.trailer)[..|p.header|] == s[..|p.header|] == HeaderBytes(f);
      }
      PiecesAreLaidOut(inflate, s[|Raw(p)|..], false, pieces[1..]);
    }
  }

  datatype Bounds = Bounds(output: int, metadata: int, members: int)

  predicate Within(pieces: seq<Piece>, bounds: Bounds) {
    && 1 <= Members(pieces) <= bounds.members
    && |Join(pieces, PayloadOf)| <= bounds.output
    && |Join(pieces, Meta)| <= bounds.metadata
  }

  lemma RawIsPrefix(inflate: Inflate, s: Bytes, first: bool, p: Piece)
    requires IsPiece(inflate, s, first, p)
    ensures Raw(p) <= s && 0 < |Raw(p)|
  {
  }

  /** The pieces put back together are the file. */
  lemma {:induction false} SplitsJoin(inflate: Inflate, s: Bytes, first: bool, pieces: seq<Piece>)
    requires Splits(inflate, s, first, pieces)
    ensures Join(pieces, Raw) == s
    decreases |pieces|
  {
    hide IsPiece, Raw;
    if pieces != [] {
      RawIsPrefix(inflate, s, first, pieces[0]);
      SplitsJoin(inflate, s[|Raw(pieces[0])|..], false, pieces[1..]);
      assert s == s[..|Raw(pieces[0])|] + s[|Raw(pieces[0])|..];
    }
  }

  lemma PieceUnique(inflate: Inflate, s: Bytes, first: bool, p: Piece, q: Piece)
    requires IsPiece(inflate, s, first, p) && IsPiece(inflate, s, first, q)
    ensures p == q
  {
    hide HeaderEnd;
    PiecesStart(inflate, s, first, p);
    PiecesStart(inflate, s, first, q);
    if p.Padding? {
      assert p.zeros == s[..|p.zeros|] && q.zeros == s[..|q.zeros|];
      assert forall i :: 0 <= i < |p.zeros| ==> s[i] == 0;
      assert forall i :: 0 <= i < |q.zeros| ==> s[i] == 0;
    } else {
      var n := |p.header + p.body + p.trailer|;
      assert p.header == s[..|p.header|] && q.header == s[..|q.header|];
      assert p.trailer == s[n - TRAILER_SIZE..n] && q.trailer == s[n - TRAILER_SIZE..n];
      assert p.body == s[|p.header|..n - TRAILER_SIZE] && q.body == s[|q.header|..n - TRAILER_SIZE];
    }
  }

  /** Padding starts with a zero byte, a member never does. */
  lemma PiecesStart(inflate: Inflate, s: Bytes, first: bool, p: Piece)
    requires IsPiece(inflate, s, first, p)
    ensures s != [] && (p.Padding? <==> s[0] == 0)
  {
    if p.Padding? { assert s[0] == p.zeros[0]; }
  }

  /** A file splits in one way at most. */
  lemma {:induction false} SplitsUnique(inflate: Inflate, s: Bytes, first: bool, ps: seq<Piece>, qs: seq<Piece>)
    requires Splits(inflate, s, first, ps) && Splits(inflate, s, first, qs)
    ensures ps == qs
    decreases |ps|
  {
    hide IsPiece, Raw;
    if ps != [] && qs != [] {
      PieceUnique(inflate, s, first, ps[0], qs[0]);
      RawIsPrefix(inflate, s, first, ps[0]);
      SplitsUnique(inflate, s[|Raw(ps[0])|..], false, ps[1..], qs[1..]);
    } else if ps != [] {
      PiecesStart(inflate, s, first, ps[0]);
    } else if qs != [] {
      PiecesStart(inflate, s, first, qs[0]);
    }
  }

  // ------------------------------------------------------------------ joining parts

  lemma {:induction false} JoinAppend(a: seq<Piece>, b: seq<Piece>, part: Piece -> Bytes)
    ensures Join(a + b, part) == Join(a, part) + Join(b, part)
    decreases |a|
  {
    if a == [] {
      assert a + b == b;
    } else {
      assert (a + b)[1..] == a[1..] + b;
      JoinAppend(a[1..], b, part);
    }
  }

  lemma {:induction false} MembersAppend(a: seq<Piece>, b: seq<Piece>)
    ensures Members(a + b) == Members(a) + Members(b)
    decreases |a|
  {
    if a == [] {
      assert a + b == b;
    } else {
      assert (a + b)[1..] == a[1..] + b;
      MembersAppend(a[1..], b);
    }
  }

  lemma PartsAppend(done: seq<Piece>, p: Piece)
    ensures Join(done + [p], Meta) == Join(done, Meta) + Meta(p)
    ensures Join(done + [p], PayloadOf) == Join(done, PayloadOf) + PayloadOf(p)
    ensures Members(done + [p]) == Members(done) + (if p.Member? then 1 else 0)
  {
    JoinAppend(done, [p], Meta);
    JoinAppend(done, [p], PayloadOf);
    MembersAppend(done, [p]);
    assert Join([p], Meta) == Meta(p) + [] && Join([p], PayloadOf) == PayloadOf(p) + [];
    assert Meta(p) + [] == Meta(p) && PayloadOf(p) + [] == PayloadOf(p);
  }

  // ------------------------------------------------------------- progress of the loop

  /** The pieces read so far are the start of any split of the file, and any split of the rest completes them. */
  ghost predicate Read(inflate: Inflate, data: Bytes, offset: nat, done: seq<Piece>) {
    && offset <= |data|
    && (forall rest :: Splits(inflate, data[offset..], done == [], rest) ==> Splits(inflate, data, true, done + rest))
    && (forall all :: Splits(inflate, data, true, all) ==>
          done <= all && Splits(inflate, data[offset..], done == [], all[|done|..]))
  }

  lemma ReadNothing(inflate: Inflate, data: Bytes)
    ensures Read(inflate, data, 0, [])
  {
    assert data[0..] == data;
    forall rest: seq<Piece> ensures [] + rest == rest {
    }
    forall all: seq<Piece> ensures all[0..] == all {
    }
  }

  lemma ReadOneMore(inflate: Inflate, data: Bytes, offset: nat, done: seq<Piece>, p: Piece)
    requires Read(inflate, data, offset, done) && IsPiece(inflate, data[offset..], done == [], p)
    ensures Read(inflate, data, offset + |Raw(p)|, done + [p])
  {
    hide IsPiece, Raw;
    var s, next := data[offset..], offset + |Raw(p)|;
    RawIsPrefix(inflate, s, done == [], p);
    assert s[|Raw(p)|..] == data[next..];
    forall rest | Splits(inflate, data[next..], false, rest) ensures Splits(inflate, data, true, done + [p] + rest) {
      assert ([p] + rest)[1..] == rest && Splits(inflate, s, done == [], [p] + rest);
      assert done + [p] + rest == done + ([p] + rest);
    }
    forall all | Splits(inflate, data, true, all)
      ensures done + [p] <= all && Splits(inflate, data[next..], false, all[|done| + 1..])
    {
      var rest := all[|done|..];
      assert Splits(inflate, s, done == [], rest);
      if rest == [] {
        PiecesStart(inflate, s, done == [], p);
        assert false;
      } else {
        PieceUnique(inflate, s, done == [], p, rest[0]);
        assert rest[1..] == all[|done| + 1..];
      }
    }
  }

  lemma ReadAll(inflate: Inflate, data: Bytes, offset: nat, done: seq<Piece>)
    requires Read(inflate, data, offset, done) && offset == |data|
    ensures Splits(inflate, data, true, done)
  {
    assert Splits(inflate, data[offset..], done == [], []);
    assert done + [] == done;
  }

  /** Bounds already exceeded by the pieces read are exceeded by the whole file. */
  lemma ExceededStaysExceeded(inflate: Inflate, data: Bytes, offset: nat, done: seq<Piece>, bounds: Bounds)
    requires Read(inflate, data, offset, done)
    requires Members(done) > bounds.members || |Join(done, PayloadOf)| > bounds.output || |Join(done, Meta)| > bounds.metadata
    ensures forall all :: Splits(inflate, data, true, all) ==> !Within(all, bounds)
  {
    hide Splits, Join, Members;
    forall all | Splits(inflate, data, true, all) ensures !Within(all, bounds) {
      assert all == done + all[|done|..];
      JoinAppend(done, all[|done|..], PayloadOf);
      JoinAppend(done, all[|done|..], Meta);
      MembersAppend(done, all[|done|..]);
    }
  }

  // ------------------------------------------------------------------- the decoder

  /** The position of a NUL byte in a stretch of the data, as bytes.find gives it. */
  method Find(data: Bytes, from: nat, limit: nat) returns (r: Option<nat>)
    requires limit <= |data|
    ensures r.Some? ==> from <= r.value < limit && data[r.value] == 0 && forall i :: from <= i < r.value ==> data[i] != 0
    ensures r.None? ==> forall i :: from <= i < limit ==> data[i] != 0
  {
    var i := from;
    while i < limit
      invariant from <= i && forall k :: from <= k < i && k < limit ==> data[k] != 0
    {
      if data[i] == 0 {
        return Some(i);
      }
      i := i + 1;
    }
    r := None;
  }

  /** The bounded search gives up only where the whole header is beyond the budget. */
  lemma EarlyBoundIsHarmless(s: Bytes, from: nat, limit: nat, budget: nat)
    requires limit <= |s| && (limit == |s| || limit == budget + 1)
    requires forall i :: from <= i < limit ==> s[i] != 0
    ensures FindNul(s, from).Some? ==> FindNul(s, from).value + 1 > budget
  {
  }

  lemma FindIsFirst(s: Bytes, from: nat, end: nat)
    requires from <= end < |s| && s[end] == 0 && forall i :: from <= i < end ==> s[i] != 0
    ensures FindNul(s, from) == Some(end)
  {
  }

  /** One NUL-terminated header field; `budget` is how long the header may still be. */
  method ReadText(data: Bytes, offset: nat, bit: nat, from: nat, budget: nat) returns (r: Option<nat>)
    requires offset + 10 <= |data| && bit > 0 && offset <= from
    ensures r.Some? ==> from <= r.value && AfterText(data[offset..], bit, from - offset) == Some(r.value - offset)
    ensures r.None? ==> var e := AfterText(data[offset..], bit, from - offset); e.None? || e.value > budget
  {
    ghost var s := data[offset..];
    if !HasFlag(data[offset + 3], bit) {
      return Some(from);
    }
    var limit := if |data| <= offset + budget + 1 then |data| else offset + budget + 1;
    var end := Find(data, from, limit);
    if end.None? {
      EarlyBoundIsHarmless(s, from - offset, limit - offset, budget);
      return None;
    }
    FindIsFirst(s, from - offset, end.value - offset);
    r := Some(end.value + 1);
  }

  lemma TextsGrow(s: Bytes, bit: nat, from: nat)
    requires |s| >= 10 && bit > 0
    ensures AfterText(s, bit, from).Some? ==> AfterText(s, bit, from).value >= from
  {
  }

  /** The end of the header at `offset`; giving up means there is none, or none of at most `budget` bytes. */
  method ReadHeader(data: Bytes, offset: nat, budget: nat) returns (r: Option<nat>)
    requires offset < |data|
    ensures r.Some? ==> offset <= r.value <= |data| && HeaderEnd(data[offset..]) == Some(r.value - offset)
    ensures r.None? ==> HeaderEnd(data[offset..]).None? || HeaderEnd(data[offset..]).value > budget
  {
    hide AfterText, HasFlag;
    ghost var s := data[offset..];
    if offset + 10 > |data| || data[offset] != 0x1f || data[offset + 1] != 0x8b || data[offset + 2] != 8 {
      return None;
    }
    var flags := data[offset + 3];
    assert s[3] == flags;
    if flags >= 0x20 {
      return None;
    }
    var headerEnd := offset + 10;
    if HasFlag(flags, 4) {
      if headerEnd + 2 > |data| {
        return None;
      }
      assert s[10] == data[headerEnd] && s[11] == data[headerEnd + 1];
      var size := data[headerEnd] as nat + 256 * data[headerEnd + 1] as nat;
      headerEnd := headerEnd + 2 + size;
    }
    if headerEnd > |data| {
      return None;
    }
    assert AfterExtra(s) == Some(headerEnd - offset);
    r := ReadText(data, offset, 8, headerEnd, budget);
    HeaderNeedsTexts(s, headerEnd - offset);
    if r.None? {
      return;
    }
    r := ReadText(data, offset, 16, r.value, budget);
    if r.None? {
      return;
    }
    if HasFlag(flags, 2) {
      r := Some(r.value + 2);
    }
    if r.value > |data| {
      return None;
    }
  }

  /** A header is at least as long as its parts. */
  lemma HeaderNeedsTexts(s: Bytes, e1: nat)
    requires |s| >= 10 && AfterExtra(s) == Some(e1)
    ensures HeaderEnd(s).Some? ==>
      && AfterText(s, 8, e1).Some? && AfterText(s, 8, e1).value <= HeaderEnd(s).value
      && AfterText(s, 16, AfterText(s, 8, e1).value).Some? && AfterText(s, 16, AfterText(s, 8, e1).value).value <= HeaderEnd(s).value
  {
    TextsGrow(s, 8, e1);
    if AfterText(s, 8, e1).Some? {
      TextsGrow(s, 16, AfterText(s, 8, e1).value);
    }
  }

  datatype Chunk = ZlibError | Chunk(payload: Bytes, eof: bool, unused: nat)

  /** At most `max` bytes of the member at the start of the stream; short output means all of it, or none. */
  predicate Decompressed(inflate: Inflate, stream: Bytes, max: nat, chunk: Chunk) {
    var full := inflate(stream);
    if full.Some? && |full.value.0| < max && full.value.1 <= |stream| then
      chunk == Chunk(full.value.0, true, |stream| - full.value.1)
    else
      chunk.ZlibError? || |chunk.payload| == max || !chunk.eof
  }

  method Decompress(inflate: Inflate, stream: Bytes, max: nat) returns (chunk: Chunk)
    ensures Decompressed(inflate, stream, max, chunk)
  {
    var full := inflate(stream);
    if full.Some? && |full.value.0| < max && full.value.1 <= |stream| {
      chunk := Chunk(full.value.0, true, |stream| - full.value.1);
    } else {
      var broken: bool := *;
      chunk := if broken then ZlibError else Chunk([], false, 0);
    }
  }

  method SkipZeros(data: Bytes, offset: nat) returns (end: nat)
    requires offset <= |data|
    ensures offset <= end <= |data| && AllZero(data[offset..end]) && (end == |data| || data[end] != 0)
  {
    end := offset;
    while end < |data| && data[end] == 0
      invariant offset <= end <= |data| && AllZero(data[offset..end])
    {
      assert data[offset..end + 1] == data[offset..end] + [data[end]];
      end := end + 1;
    }
  }

  ghost predicate Decoded(inflate: Inflate, data: Bytes, bounds: Bounds, pieces: seq<Piece>) {
    Splits(inflate, data, true, pieces) && Within(pieces, bounds)
  }

  /** Nothing here is a split within the bounds. */
  ghost predicate Undecodable(inflate: Inflate, data: Bytes, bounds: Bounds) {
    forall pieces :: !Decoded(inflate, data, bounds, pieces)
  }

  predicate Exceeds(pieces: seq<Piece>, bounds: Bounds) {
    Members(pieces) > bounds.members || |Join(pieces, PayloadOf)| > bounds.output || |Join(pieces, Meta)| > bounds.metadata
  }

  /** Every piece that could come next breaks a bound. */
  ghost predicate NextExceeds(inflate: Inflate, s: Bytes, done: seq<Piece>, bounds: Bounds) {
    forall p :: IsPiece(inflate, s, done == [], p) ==> Exceeds(done + [p], bounds)
  }

  lemma NextRejected(inflate: Inflate, data: Bytes, offset: nat, done: seq<Piece>, bounds: Bounds)
    requires Read(inflate, data, offset, done) && offset < |data| && NextExceeds(inflate, data[offset..], done, bounds)
    ensures Undecodable(inflate, data, bounds)
  {
    hide IsPiece, Join, Members;
    forall all ensures !Decoded(inflate, data, bounds, all) {
      if Splits(inflate, data, true, all) {
        var rest := all[|done|..];
        assert data[offset..] != [] && Splits(inflate, data[offset..], done == [], rest);
        var p := rest[0];
        assert all == (done + [p]) + rest[1..];
        JoinAppend(done + [p], rest[1..], PayloadOf);
        JoinAppend(done + [p], rest[1..], Meta);
        MembersAppend(done + [p], rest[1..]);
        assert Exceeds(done + [p], bounds);
      }
    }
  }

  lemma ExceededRejected(inflate: Inflate, data: Bytes, offset: nat, done: seq<Piece>, bounds: Bounds)
    requires Read(inflate, data, offset, done) && Exceeds(done, bounds)
    ensures Undecodable(inflate, data, bounds)
  {
    hide Splits, Within;
    ExceededStaysExceeded(inflate, data, offset, done, bounds);
    forall all ensures !Decoded(inflate, data, bounds, all) {
    }
  }

  /** Where a byte is not zero only members start, and their metadata and payload may be too much. */
  lemma MemberExceeds(inflate: Inflate, s: Bytes, done: seq<Piece>, bounds: Bounds)
    requires s != [] && s[0] != 0
    requires forall p :: IsMember(inflate, s, p) ==>
      Members(done) + 1 > bounds.members || |Join(done, PayloadOf)| + |p.payload| > bounds.output
      || |Join(done, Meta)| + |p.header| + TRAILER_SIZE > bounds.metadata
    ensures NextExceeds(inflate, s, done, bounds)
  {
    hide IsMember, Join, Members;
    forall p | IsPiece(inflate, s, done == [], p) ensures Exceeds(done + [p], bounds) {
      PiecesStart(inflate, s, done == [], p);
      PartsAppend(done, p);
      MemberTrailer(inflate, s, p);
    }
  }

  lemma MemberTrailer(inflate: Inflate, s: Bytes, p: Piece)
    requires IsMember(inflate, s, p)
    ensures |Meta(p)| == |p.header| + TRAILER_SIZE && p.Member?
  {
  }

  /** The member at the start of the data from `offset`, if its metadata and payload fit the budgets. */
  method ReadMember(inflate: Inflate, data: Bytes, offset: nat, metadata: nat, output: nat) returns (r: Option<Piece>)
    requires offset < |data|
    ensures r.Some? ==> IsMember(inflate, data[offset..], r.value)
    ensures r.Some? ==> |r.value.header| + TRAILER_SIZE <= metadata && |r.value.payload| <= output
    ensures r.None? ==> forall p :: IsMember(inflate, data[offset..], p) ==>
      |p.header| + TRAILER_SIZE > metadata || |p.payload| > output
  {
    hide HeaderEnd;
    ghost var s := data[offset..];
    var headerEnd := ReadHeader(data, offset, metadata);
    if headerEnd.None? || headerEnd.value - offset > metadata {
      return None;
    }
    var chunk := Decompress(inflate, data[offset..], output + 1);
    if chunk.ZlibError? || |chunk.payload| > output || !chunk.eof {
      return None;
    }
    var memberEnd := |data| - chunk.unused;
    if memberEnd < headerEnd.value + TRAILER_SIZE || headerEnd.value - offset + TRAILER_SIZE > metadata {
      return None;
    }
    var member := Member(data[offset..headerEnd.value], data[headerEnd.value..memberEnd - TRAILER_SIZE],
                         data[memberEnd - TRAILER_SIZE..memberEnd], chunk.payload);
    Sliced(data, offset, headerEnd.value, memberEnd);
    r := Some(member);
  }

  lemma Sliced(data: Bytes, a: nat, b: nat, d: nat)
    requires a <= b && b + TRAILER_SIZE <= d <= |data|
    ensures data[a..b] + data[b..d - TRAILER_SIZE] + data[d - TRAILER_SIZE..d] == data[a..][..d - a]
    ensures data[a..][..d - a] <= data[a..]
  {
    var c := d - TRAILER_SIZE;
    assert data[a..b] + data[b..c] == data[a..c];
    assert data[a..c] + data[c..d] == data[a..d];
    assert data[a..][..d - a] == data[a..d];
  }

  /**
   * Decoding succeeds exactly when the bytes split into padding and members
   * within the bounds, and then returns their payloads and their metadata.
   */
  method DecodeGzipMembers(inflate: Inflate, data: Bytes, bounds: Bounds) returns (r: Option<(Bytes, Bytes)>, ghost pieces: seq<Piece>)
    ensures r.Some? ==> Decoded(inflate, data, bounds, pieces)
    ensures r.Some? ==> r.value == (Join(pieces, PayloadOf), Join(pieces, Meta))
    ensures r.None? ==> bounds.output < 1 || bounds.metadata < 1 || bounds.members < 1 || Undecodable(inflate, data, bounds)
  {
    hide Join, Members, IsPiece, IsMember, Splits, Read, Undecodable, NextExceeds;
    pieces := [];
    if bounds.output < 1 || bounds.metadata < 1 || bounds.members < 1 {
      return None, pieces;
    }
    var payloads: Bytes, metadata: Bytes, offset, members := [], [], 0, 0;
    ReadNothing(inflate, data);
    NothingJoined();
    while offset < |data|
      invariant Read(inflate, data, offset, pieces) && offset <= |data|
      invariant payloads == Join(pieces, PayloadOf) && |payloads| <= bounds.output
      invariant metadata == Join(pieces, Meta) && |metadata| <= bounds.metadata
      invariant members == Members(pieces) <= bounds.members && (members == 0 <==> pieces == [])
      decreases |data| - offset
    {
      var paddingEnd := SkipZeros(data, offset);
      if paddingEnd != offset {
        if members == 0 {
          PaddingFirst(inflate, data[offset..], pieces, bounds);
          NextRejected(inflate, data, offset, pieces, bounds);
          return None, pieces;
        }
        ghost var p := Padding(data[offset..paddingEnd]);
        PaddingRead(inflate, data, offset, paddingEnd);
        ReadOneMore(inflate, data, offset, pieces, p);
        PartsAppend(pieces, p);
        pieces := pieces + [p];
        metadata := metadata + data[offset..paddingEnd];
        payloads := payloads + [];
        if |metadata| > bounds.metadata {
          ExceededRejected(inflate, data, paddingEnd, pieces, bounds);
          return None, pieces;
        }
        offset := paddingEnd;
      }
      if offset == |data| {
        break;
      }
      var member: Option<Piece> := None;
      if members + 1 <= bounds.members {
        member := ReadMember(inflate, data, offset, bounds.metadata - |metadata|, bounds.output - |payloads|);
      }
      if member.None? {
        MemberExceeds(inflate, data[offset..], pieces, bounds);
        NextRejected(inflate, data, offset, pieces, bounds);
        return None, pieces;
      }
      var m := member.value;
      MemberTrailer(inflate, data[offset..], m);
      MemberIsPiece(inflate, data[offset..], pieces == [], m);
      ReadOneMore(inflate, data, offset, pieces, m);
      RawIsPrefix(inflate, data[offset..], pieces == [], m);
      PartsAppend(pieces, m);
      pieces := pieces + [m];
      members := members + 1;
      payloads := payloads + m.payload;
      metadata := metadata + (m.header + m.trailer);
      offset := offset + |m.header + m.body + m.trailer|;
    }
    ReadAll(inflate, data, offset, pieces);
    if members == 0 {
      EmptyHasNoMembers(inflate, data, pieces, bounds);
      return None, pieces;
    }
    r := Some((payloads, metadata));
  }

  lemma NothingJoined()
    ensures Join([], PayloadOf) == [] && Join([], Meta) == [] && Members([]) == 0
  {
  }

  lemma MemberIsPiece(inflate: Inflate, s: Bytes, first: bool, m: Piece)
    requires IsMember(inflate, s, m)
    ensures IsPiece(inflate, s, first, m) && m.Member?
  {
  }

  lemma PaddingRead(inflate: Inflate, data: Bytes, offset: nat, end: nat)
    requires offset < end <= |data| && AllZero(data[offset..end]) && (end == |data| || data[end] != 0)
    ensures IsPiece(inflate, data[offset..], false, Padding(data[offset..end])) && |Raw(Padding(data[offset..end]))| == end - offset
  {
    assert data[offset..][..end - offset] == data[offset..end];
  }

  lemma PaddingFirst(inflate: Inflate, s: Bytes, done: seq<Piece>, bounds: Bounds)
    requires s != [] && s[0] == 0 && done == []
    ensures NextExceeds(inflate, s, done, bounds)
  {
    forall p ensures !IsPiece(inflate, s, true, p) {
      if IsPiece(inflate, s, true, p) {
        PiecesStart(inflate, s, true, p);
      }
    }
  }

  lemma EmptyHasNoMembers(inflate: Inflate, data: Bytes, done: seq<Piece>, bounds: Bounds)
    requires Splits(inflate, data, true, done) && Members(done) == 0
    ensures Undecodable(inflate, data, bounds)
  {
    forall all ensures !Decoded(inflate, data, bounds, all) {
      if Splits(inflate, data, true, all) {
        SplitsUnique(inflate, data, true, all, done);
      }
    }
  }
}
