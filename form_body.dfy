/**
  The eager `application/x-www-form-urlencoded` request body.

  An ordered list of (name, optional value) params is serialised into one
  string: every param becomes a segment (encoded name, then `=` and the
  encoded value when the value is present), the segments are joined with
  `&`, and the result is written out as bytes. The percent-encoders are
  foreign code; they are parameters here, and every property below holds
  for any pair of encoders (with the stated side conditions on their
  output alphabet).
*/
module FormBody {
  import opened Common

  /** A character set, identified by its canonical name. */
  datatype Charset = Charset(name: string)

  /** `Charset.equals(UTF_8)`: charsets are equal when their canonical names are. */
  predicate IsUtf8(cs: Charset) {
    cs.name == "UTF-8"
  }

  /** One form param; a null value is `None`. */
  datatype Param = Param(name: string, value: Option<string>)

  /**
    The two foreign encoders: the UTF-8 fast path and the generic encoder
    that takes the charset name. The generic encoder yields `None` where it
    would throw `UnsupportedEncodingException`.
  */
  datatype Encoders = Encoders(utf8: string -> string, generic: (string, string) -> Option<string>)

  /** The failure raised when the builder is truncated to a negative length. */
  datatype EncodeError = NegativeLength

  /** What `build` hands to the transport: the bytes and the declared content length. */
  datatype WritableContent = WritableContent(bytes: seq<byte>, contentLength: nat)

  predicate IsAscii(s: string) {
    forall i :: 0 <= i < |s| ==> s[i] as int < 128
  }

  /** Both encoders emit only ASCII characters whatever their input. */
  ghost predicate ProducesAscii(enc: Encoders) {
    && (forall s :: IsAscii(enc.utf8(s)))
    && (forall s, cs :: enc.generic(s, cs).Some? ==> IsAscii(enc.generic(s, cs).value))
  }

  /** Neither encoder ever emits the delimiter `d` (form encoders escape `&` and `=`). */
  ghost predicate Escapes(enc: Encoders, d: char) {
    && (forall s :: d !in enc.utf8(s))
    && (forall s, cs :: enc.generic(s, cs).Some? ==> d !in enc.generic(s, cs).value)
  }

  // ---------------------------------------------------------------------------
  // Specification: segments and their `&`-join
  // ---------------------------------------------------------------------------

  /** The encoding of one field: the fast path for UTF-8, the generic encoder otherwise. */
  function EncodeField(enc: Encoders, cs: Charset, field: string): (r: string)
    ensures ProducesAscii(enc) ==> IsAscii(r)
    ensures forall d :: Escapes(enc, d) ==> d !in r
  {
    if IsUtf8(cs) then enc.utf8(field)
    else match enc.generic(field, cs.name)
      case Some(e) => e
      case None => ""
  }

  /** The text one param contributes, before its separator. */
  function Segment(enc: Encoders, cs: Charset, p: Param): string {
    EncodeField(enc, cs, p.name) + (if p.value.Some? then "=" + EncodeField(enc, cs, p.value.value) else "")
  }

  /** The segments of a param list, one per param, in input order. */
  function Segments(enc: Encoders, cs: Charset, ps: seq<Param>): seq<string> {
    seq(|ps|, i requires 0 <= i < |ps| => Segment(enc, cs, ps[i]))
  }

  /** Strings separated by `&`: no leading and no trailing separator. */
  function Join(segs: seq<string>): string {
    if |segs| == 0 then ""
    else if |segs| == 1 then segs[0]
    else segs[0] + "&" + Join(segs[1..])
  }

  /** The reference serialisation of a param list. */
  function Serialize(enc: Encoders, cs: Charset, ps: seq<Param>): string {
    Join(Segments(enc, cs, ps))
  }

  /** Every string followed by `&`: what the encoding loop has built after each param. */
  function Terminated(segs: seq<string>): string {
    if segs == [] then "" else Terminated(segs[..|segs| - 1]) + segs[|segs| - 1] + "&"
  }

  /** Sum of the lengths of the segments. */
  function TotalLength(segs: seq<string>): nat {
    if segs == [] then 0 else |segs[0]| + TotalLength(segs[1..])
  }

  /** The index of the first `d` in `s`, or `|s|` when there is none. */
  function IndexOf(s: string, d: char): (k: nat)
    ensures k <= |s|
    ensures forall j :: 0 <= j < k ==> s[j] != d
    ensures k < |s| ==> s[k] == d
  {
    if s == [] then 0
    else if s[0] == d then 0
    else 1 + IndexOf(s[1..], d)
  }

  /** Splitting a body on `&`, as a form parser reads it back. */
  function Split(s: string): (r: seq<string>)
    ensures |r| > 0
    decreases |s|
  {
    var k := IndexOf(s, '&');
    if k == |s| then [s] else [s[..k]] + Split(s[k + 1..])
  }

  // ---------------------------------------------------------------------------
  // The imperative encoder (StringBuilder appends in a loop, then setLength)
  // ---------------------------------------------------------------------------

  /** `StringBuilder.setLength`: negative throws, shorter truncates, longer pads with NULs. */
  function SetLength(sb: string, n: int): (r: Result<string, EncodeError>)
    ensures n < 0 <==> r.Failure?
    ensures r.Success? ==> |r.value| == n
    ensures r.Success? && n <= |sb| ==> r.value == sb[..n]
    ensures r.Success? && |sb| <= n ==> r.value[..|sb|] == sb
  {
    if n < 0 then Failure(NegativeLength)
    else if n <= |sb| then Success(sb[..n])
    else Success(sb + seq(n - |sb|, _ => '\0'))
  }

  /** Appends the encoding of one field to the builder. */
  method AppendFormField(sb: string, field: string, cs: Charset, enc: Encoders) returns (out: string)
    ensures out == sb + EncodeField(enc, cs, field)
    ensures ProducesAscii(enc) && IsAscii(sb) ==> IsAscii(out)
  {
    if IsUtf8(cs) {
      out := sb + enc.utf8(field);
    } else {
      var e := enc.generic(field, cs.name);
      if e.Some? {
        out := sb + e.value;
      } else {
        // the exception is swallowed: nothing is appended
        out := sb;
      }
    }
  }

  /** Appends one param and its trailing separator to the builder. */
  method AppendFormParam(sb: string, name: string, value: Option<string>, cs: Charset, enc: Encoders)
    returns (out: string)
    ensures out == sb + Segment(enc, cs, Param(name, value)) + "&"
    ensures |out| > |sb| && out[|out| - 1] == '&'
  {
    out := AppendFormField(sb, name, cs, enc);
    if value.Some? {
      out := out + "=";
      out := AppendFormField(out, value.value, cs, enc);
    }
    out := out + "&";
  }

  /**
    Encodes the params in order into one builder and cuts off the final
    separator; an empty list makes the truncation throw.
  */
  method Encode(enc: Encoders, cs: Charset, ps: seq<Param>) returns (r: Result<string, EncodeError>)
    ensures r.Failure? <==> ps == []
    ensures r.Success? ==> r.value == Serialize(enc, cs, ps)
  {
    ghost var segs := Segments(enc, cs, ps);
    var sb := "";
    var i := 0;
    while i < |ps|
      invariant 0 <= i <= |ps|
      invariant sb == Terminated(segs[..i])
      invariant i == 0 <==> sb == []
    {
      sb := AppendFormParam(sb, ps[i].name, ps[i].value, cs, enc);
      assert segs[..i + 1][..i] == segs[..i];
      i := i + 1;
    }
    assert segs[..i] == segs;
    r := SetLength(sb, |sb| - 1);
    if r.Success? {
      TerminatedIsJoin(segs);
    }
  }

  /** `build`: the encoded text written with `writeAscii`, declared length = bytes written. */
  method Build(enc: Encoders, cs: Charset, ps: seq<Param>) returns (r: Result<WritableContent, EncodeError>)
    ensures r.Failure? <==> ps == []
    ensures r.Success? ==> r.value.bytes == WriteAscii(Serialize(enc, cs, ps))
    ensures r.Success? ==> r.value.contentLength == |r.value.bytes| == |Serialize(enc, cs, ps)|
  {
    var s := Encode(enc, cs, ps);
    if s.Failure? {
      return Failure(s.error);
    }
    var bb := WriteAscii(s.value);
    r := Success(WritableContent(bb, |bb|));
  }

  /**
    `getBytes`: the encoded text in the platform's default charset, taken to
    be UTF-8. With ASCII encoders it is exactly what `build` writes.
  */
  method GetBytes(enc: Encoders, cs: Charset, ps: seq<Param>) returns (r: Result<seq<byte>, EncodeError>)
    ensures r.Failure? <==> ps == []
    ensures r.Success? ==> r.value == Utf8Bytes(Serialize(enc, cs, ps))
    ensures r.Success? && ProducesAscii(enc) ==> r.value == WriteAscii(Serialize(enc, cs, ps))
  {
    var s := Encode(enc, cs, ps);
    if s.Failure? {
      return Failure(s.error);
    }
    r := Success(Utf8Bytes(s.value));
    if ProducesAscii(enc) {
      SerializeIsAscii(enc, cs, ps);
      AsciiUtf8(s.value);
    }
  }

  // ---------------------------------------------------------------------------
  // Byte conversions
  // ---------------------------------------------------------------------------

  /** Netty's char-to-byte conversion: characters above 255 become `?`. */
  function C2b(c: char): byte {
    if c as int > 255 then '?' as int as byte else c as int as byte
  }

  /** `ByteBufUtil.writeAscii`: one byte per character. */
  function WriteAscii(s: string): (bs: seq<byte>)
    ensures |bs| == |s|
    ensures forall i :: 0 <= i < |s| && s[i] as int < 256 ==> bs[i] as int == s[i] as int
  {
    seq(|s|, i requires 0 <= i < |s| => C2b(s[i]))
  }

  /** The UTF-8 encoding of one code point. */
  function Utf8Char(c: char): (bs: seq<byte>)
    ensures 1 <= |bs| <= 4
    ensures |bs| == 1 <==> c as int < 128
    ensures c as int < 128 ==> bs[0] as int == c as int
  {
    var cp := c as int;
    if cp < 0x80 then [cp as byte]
    else if cp < 0x800 then [(0xC0 + cp / 64) as byte, (0x80 + cp % 64) as byte]
    else if cp < 0x1_0000 then
      [(0xE0 + cp / 4096) as byte, (0x80 + (cp / 64) % 64) as byte, (0x80 + cp % 64) as byte]
    else
      [(0xF0 + cp / 262144) as byte, (0x80 + (cp / 4096) % 64) as byte,
       (0x80 + (cp / 64) % 64) as byte, (0x80 + cp % 64) as byte]
  }

  /** `String.getBytes()` with UTF-8 as the default charset. */
  function Utf8Bytes(s: string): seq<byte> {
    if s == [] then [] else Utf8Char(s[0]) + Utf8Bytes(s[1..])
  }

  // ---------------------------------------------------------------------------
  // Properties
  // ---------------------------------------------------------------------------

  /** Appending a string to a `&`-join adds one separator and the string. */
  lemma {:induction false} JoinSnoc(segs: seq<string>, x: string)
    requires segs != []
    ensures Join(segs + [x]) == Join(segs) + "&" + x
  {
    if |segs| == 1 {
      assert segs + [x] == [segs[0], x];
    } else {
      assert (segs + [x])[1..] == segs[1..] + [x];
      JoinSnoc(segs[1..], x);
    }
  }

  /** Cutting the last character off the loop's builder leaves the `&`-join. */
  lemma {:induction false} TerminatedIsJoin(segs: seq<string>)
    requires segs != []
    ensures Terminated(segs) == Join(segs) + "&"
  {
    var init, last := segs[..|segs| - 1], segs[|segs| - 1];
    assert segs == init + [last];
    if init != [] {
      TerminatedIsJoin(init);
      JoinSnoc(init, last);
    }
  }

  /** A `&`-join of n strings is their total length plus n - 1 separators. */
  lemma {:induction false} JoinLength(segs: seq<string>)
    requires segs != []
    ensures |Join(segs)| == TotalLength(segs) + |segs| - 1
  {
    if |segs| > 1 {
      JoinLength(segs[1..]);
    }
  }

  /** The body's length: the segment lengths plus one separator between each two params. */
  lemma SerializeLength(enc: Encoders, cs: Charset, ps: seq<Param>)
    requires ps != []
    ensures |Serialize(enc, cs, ps)| == TotalLength(Segments(enc, cs, ps)) + |ps| - 1
  {
    JoinLength(Segments(enc, cs, ps));
  }

  /** Reading a `&`-join back gives the strings, when none of them contains `&`. */
  lemma {:induction false} SplitJoin(segs: seq<string>)
    requires segs != []
    requires forall i :: 0 <= i < |segs| ==> '&' !in segs[i]
    ensures Split(Join(segs)) == segs
  {
    if |segs| == 1 {
      assert IndexOf(segs[0], '&') == |segs[0]|;
    } else {
      var a, b := segs[0], Join(segs[1..]);
      var s := a + "&" + b;
      assert IndexOf(s, '&') == |a| by {
        IndexAtFirst(a, b);
      }
      assert s[..|a|] == a && s[|a| + 1..] == b;
      SplitJoin(segs[1..]);
      assert segs == [a] + segs[1..];
    }
  }

  /** The first `&` of `a + "&" + b` is the one after `a`, when `a` has none. */
  lemma {:induction false} IndexAtFirst(a: string, b: string)
    requires '&' !in a
    ensures IndexOf(a + "&" + b, '&') == |a|
  {
    if a != [] {
      assert (a + "&" + b)[1..] == a[1..] + "&" + b;
      IndexAtFirst(a[1..], b);
    }
  }

  /**
    The body is the params' segments in input order: a parser that splits it
    on `&` gets back exactly one segment per param, none reordered, none
    merged or dropped, provided the encoders escape `&`.
  */
  lemma SerializeSegments(enc: Encoders, cs: Charset, ps: seq<Param>)
    requires ps != []
    requires Escapes(enc, '&')
    ensures |Split(Serialize(enc, cs, ps))| == |ps|
    ensures forall i :: 0 <= i < |ps| ==> Split(Serialize(enc, cs, ps))[i] == Segment(enc, cs, ps[i])
  {
    var segs := Segments(enc, cs, ps);
    forall i | 0 <= i < |segs|
      ensures '&' !in segs[i]
    {
      assert '&' !in EncodeField(enc, cs, ps[i].name);
      if ps[i].value.Some? {
        assert '&' !in EncodeField(enc, cs, ps[i].value.value);
      }
    }
    SplitJoin(segs);
  }

  /**
    A segment carries `=` exactly when its value is non-null (an empty value
    included); the part before `=` is the encoded name and the part after it
    the encoded value. Holds when the encoders escape `=`.
  */
  lemma SegmentShape(enc: Encoders, cs: Charset, p: Param)
    requires Escapes(enc, '=')
    ensures '=' in Segment(enc, cs, p) <==> p.value.Some?
    ensures var seg, k := Segment(enc, cs, p), IndexOf(Segment(enc, cs, p), '=');
      && seg[..k] == EncodeField(enc, cs, p.name)
      && (p.value.Some? ==> seg[k + 1..] == EncodeField(enc, cs, p.value.value))
  {
  }

  /** A `&`-join of ASCII strings is ASCII. */
  lemma {:induction false} JoinAscii(segs: seq<string>)
    requires forall i :: 0 <= i < |segs| ==> IsAscii(segs[i])
    ensures IsAscii(Join(segs))
  {
    if |segs| > 1 {
      JoinAscii(segs[1..]);
    }
  }

  /** With ASCII encoders the whole body is ASCII. */
  lemma SerializeIsAscii(enc: Encoders, cs: Charset, ps: seq<Param>)
    requires ProducesAscii(enc)
    ensures IsAscii(Serialize(enc, cs, ps))
  {
    JoinAscii(Segments(enc, cs, ps));
  }

  /** On ASCII text, UTF-8 and `writeAscii` produce the same bytes. */
  lemma {:induction false} AsciiUtf8(s: string)
    requires IsAscii(s)
    ensures Utf8Bytes(s) == WriteAscii(s)
  {
    if s != [] {
      AsciiUtf8(s[1..]);
      assert WriteAscii(s) == [C2b(s[0])] + WriteAscii(s[1..]);
    }
  }
}
