// SDP text: the line parser and the two builders (src/common/sdp.cpp).
module Sdp {
  import opened Words

  datatype Media = Media(kind: string, port: uint16, protocol: string, formats: seq<int>, rtpmap: string)

  datatype Session = Session(connAddr: string, media: seq<Media>) {
    function Find(kind: string): Option<Media> { FirstOf(media, kind) }
    function FindAudio(): Option<Media> { Find("audio") }
    function FindVideo(): Option<Media> { Find("video") }
  }

  function FirstOf(ms: seq<Media>, kind: string): (r: Option<Media>)
    ensures r.None? <==> forall i :: 0 <= i < |ms| ==> ms[i].kind != kind
    ensures r.Some? ==> exists i :: 0 <= i < |ms| && r.value == ms[i] && ms[i].kind == kind
                                    && forall j :: 0 <= j < i ==> ms[j].kind != kind
  {
    if ms == [] then None
    else if ms[0].kind == kind then Some(ms[0])
    else FirstOf(ms[1..], kind)
  }

  // ---- Characters and spans ----

  predicate IsSpace(c: char) {
    c == ' ' || c == '\t' || c == '\n' || c == '\r' || c == '\U{0B}' || c == '\U{0C}'
  }

  predicate IsDigit(c: char) { '0' <= c <= '9' }

  const SPACE := (c: char) => IsSpace(c)
  const NON_SPACE := (c: char) => !IsSpace(c)
  const DIGIT := (c: char) => IsDigit(c)

  predicate All(s: string, p: char -> bool) { forall i :: 0 <= i < |s| ==> p(s[i]) }

  /** The longest prefix satisfying p, and the rest. */
  function Span(s: string, p: char -> bool): (r: (string, string))
    ensures r.0 + r.1 == s && All(r.0, p) && (r.1 == [] || !p(r.1[0]))
  {
    if s == [] || !p(s[0]) then ([], s)
    else
      var (taken, rest) := Span(s[1..], p);
      ([s[0]] + taken, rest)
  }

  lemma {:induction false} SpanSplits(a: string, b: string, p: char -> bool)
    requires All(a, p) && (b == [] || !p(b[0]))
    ensures Span(a + b, p) == (a, b)
  {
    if a == [] {
      assert a + b == b;
    } else {
      assert (a + b)[1..] == a[1..] + b && (a + b)[0] == a[0];
      SpanSplits(a[1..], b, p);
      assert a == [a[0]] + a[1..];
    }
  }

  // ---- Input streams ----

  /** What an istringstream still holds, and whether it has not failed. */
  datatype Input = Input(rest: string, ok: bool)

  function SkipSpace(s: string): string { Span(s, SPACE).1 }

  /** operator>> into an empty string. */
  function ReadWord(i: Input): (r: (string, Input)) {
    var s := SkipSpace(i.rest);
    if !i.ok || s == [] then ("", Input(s, false))
    else (Span(s, NON_SPACE).0, Input(Span(s, NON_SPACE).1, true))
  }

  function DigitsValue(digits: string): nat
    requires All(digits, DIGIT)
  {
    if digits == [] then 0
    else DigitsValue(digits[..|digits| - 1]) * 10 + (digits[|digits| - 1] as int - '0' as int)
  }

  /** A number as operator>> scans it: an optional sign and decimal digits. */
  datatype Scan = Scan(negative: bool, digits: string, rest: string)

  function ScanNumber(s: string): (r: Scan)
    ensures All(r.digits, DIGIT) && |r.rest| + |r.digits| <= |s|
  {
    var signed := s != [] && (s[0] == '-' || s[0] == '+');
    var body := if signed then s[1..] else s;
    Scan(signed && s[0] == '-', Span(body, DIGIT).0, Span(body, DIGIT).1)
  }

  /** operator>> into a uint16_t that holds 0: a negated number wraps, one out of range saturates and fails. */
  function ReadUint16(i: Input): (r: (uint16, Input)) {
    var s := SkipSpace(i.rest);
    if !i.ok || s == [] then (0, Input(s, false))
    else
      var n := ScanNumber(s);
      var v: int := DigitsValue(n.digits);
      if n.digits == [] then (0, Input(n.rest, false))
      else if v >= TWO16 then (TWO16 - 1, Input(n.rest, false))
      else (if n.negative then Wrap16(-v) else v, Input(n.rest, true))
  }

  /** operator>> into an int; the value matters only where it succeeds. */
  function ReadInt(i: Input): (r: (int, Input))
    ensures r.1.ok ==> |r.1.rest| < |i.rest|
  {
    var s := SkipSpace(i.rest);
    if !i.ok || s == [] then (0, Input(s, false))
    else
      var n := ScanNumber(s);
      var v: int := DigitsValue(n.digits) as int * if n.negative then -1 else 1;
      (v, Input(n.rest, n.digits != [] && -0x8000_0000 <= v <= 0x7FFF_FFFF))
  }

  function ReadInts(i: Input): seq<int>
    decreases |i.rest|
  {
    var (v, next) := ReadInt(i);
    if next.ok then [v] + ReadInts(next) else []
  }

  // ---- Lines ----

  const NOT_NEWLINE := (c: char) => c != '\n'

  /** What successive calls of getline yield. */
  function Lines(text: string): seq<string>
    decreases |text|
  {
    if text == [] then []
    else
      var (line, rest) := Span(text, NOT_NEWLINE);
      [line] + if rest == [] then [] else Lines(rest[1..])
  }

  function StripCr(line: string): string {
    if line != [] && line[|line| - 1] == '\r' then line[..|line| - 1] else line
  }

  // ---- Parse ----

  /** The session being filled; `inMedia` is whether an m= line has been seen in this text, which
      then is the last entry. */
  datatype Progress = Progress(out: Session, inMedia: bool) {
    ghost predicate Valid() { inMedia ==> out.media != [] }
  }

  function MediaLine(text: string): Media {
    var (kind, i1) := ReadWord(Input(text, true));
    var (port, i2) := ReadUint16(i1);
    var (protocol, i3) := ReadWord(i2);
    Media(kind, port, protocol, ReadInts(i3), "")
  }

  function ConnectionAddress(text: string): string {
    var (_, i1) := ReadWord(Input(text, true));
    var (_, i2) := ReadWord(i1);
    ReadWord(i2).0
  }

  function AfterLine(p: Progress, raw: string): (r: Progress)
    requires p.Valid()
    ensures r.Valid()
  {
    var line := StripCr(raw);
    if "c=" <= line then
      var addr := ConnectionAddress(line[2..]);
      if addr != "" then p.(out := p.out.(connAddr := addr)) else p
    else if "m=" <= line then Progress(p.out.(media := p.out.media + [MediaLine(line[2..])]), true)
    else if "a=rtpmap:" <= line && p.inMedia then
      var last := |p.out.media| - 1;
      p.(out := p.out.(media := p.out.media[last := p.out.media[last].(rtpmap := line[2..])]))
    else p
  }

  function AfterLines(p: Progress, lines: seq<string>): (r: Progress)
    requires p.Valid()
    ensures r.Valid()
    decreases |lines|
  {
    if lines == [] then p else AfterLines(AfterLine(p, lines[0]), lines[1..])
  }

  function Parsed(text: string, out: Session): Session {
    AfterLines(Progress(out, false), Lines(text)).out
  }

  /** Adds to the caller's session; succeeds if it then has media. */
  method Parse(text: string, out0: Session) returns (ok: bool, out: Session)
    ensures out == Parsed(text, out0) && (ok <==> out.media != [])
  {
    out := out0;
    var rest, inMedia := text, false;
    while rest != []
      invariant Progress(out, inMedia).Valid()
      invariant AfterLines(Progress(out, inMedia), Lines(rest)).out == Parsed(text, out0)
      decreases |rest|
    {
      ghost var before := Progress(out, inMedia);
      var (raw, tail) := Span(rest, NOT_NEWLINE);
      rest := if tail == [] then [] else tail[1..];
      var line := StripCr(raw);
      if "c=" <= line {
        var addr := ConnectionAddress(line[2..]);
        if addr != "" {
          out := out.(connAddr := addr);
        }
      } else if "m=" <= line {
        var media := ParseMedia(line[2..]);
        out, inMedia := out.(media := out.media + [media]), true;
      } else if "a=rtpmap:" <= line && inMedia {
        var last := |out.media| - 1;
        out := out.(media := out.media[last := out.media[last].(rtpmap := line[2..])]);
      }
      assert Progress(out, inMedia) == AfterLine(before, raw);
    }
    ok := out.media != [];
  }

  // The branch of Parse for an m= line.
  method ParseMedia(text: string) returns (media: Media)
    ensures media == MediaLine(text)
  {
    var (kind, i1) := ReadWord(Input(text, true));
    var (port, i2) := ReadUint16(i1);
    var (protocol, i3) := ReadWord(i2);
    var formats := ParseFormats(i3);
    media := Media(kind, port, protocol, formats, "");
  }

  method ParseFormats(i: Input) returns (formats: seq<int>)
    ensures formats == ReadInts(i)
  {
    hide ReadInt;
    formats := [];
    var (format, input) := ReadInt(i);
    while input.ok
      invariant formats + (if input.ok then [format] + ReadInts(input) else []) == ReadInts(i)
      decreases input.ok, |input.rest|
    {
      formats := formats + [format];
      var (v, next) := ReadInt(input);
      format, input := v, next;
    }
  }

  // ---- The builders ----

  function Dec(n: nat): (s: string)
    ensures s != [] && All(s, DIGIT)
  {
    if n < 10 then [('0' as int + n) as char] else Dec(n / 10) + [('0' as int + n % 10) as char]
  }

  function DecInt(n: int): string { if n < 0 then "-" + Dec(-n) else Dec(n) }

  function Crlf(line: string): string { line + "\r\n" }

  /** BuildOffer and BuildAnswer write the same text. */
  function BuildAnswer(localIp: string, audioPort: uint16, videoPort: uint16, audioPt: int, videoPt: int): string {
    Crlf("v=0")
    + Crlf("o=rtcom 1 1 IN IP4 " + localIp)
    + Crlf("s=rtcom")
    + Crlf("c=IN IP4 " + localIp)
    + Crlf("t=0 0")
    + Crlf("m=audio " + Dec(audioPort) + " RTP/AVP " + DecInt(audioPt))
    + Crlf("a=rtpmap:" + DecInt(audioPt) + " AAC/44100/1")
    + Crlf("m=video " + Dec(videoPort) + " RTP/AVP " + DecInt(videoPt))
    + Crlf("a=rtpmap:" + DecInt(videoPt) + " H264/90000")
  }
}
