// Printing and parsing SDP undo each other, under either line ending.
module SdpProofs {
  import opened Words
  import opened Sdp

  // ---- Numbers ----

  lemma {:induction false} DecReadsBack(n: nat)
    ensures DigitsValue(Dec(n)) == n
  {
    if n >= 10 {
      var s := Dec(n);
      assert s[..|s| - 1] == Dec(n / 10);
      DecReadsBack(n / 10);
    } else {
      assert Dec(n)[..0] == [];
    }
  }

  // ---- Words and numbers in a stream ----

  predicate IsWord(w: string) { w != [] && All(w, NON_SPACE) }

  // After a word or number: the end of the line or a space.
  predicate Delimited(rest: string) { rest == [] || IsSpace(rest[0]) }

  lemma SkipsOneSpace(s: string)
    requires s != [] && !IsSpace(s[0])
    ensures SkipSpace(" " + s) == s && SkipSpace(s) == s
  {
    SpanSplits(" ", s, SPACE);
    SpanSplits([], s, SPACE);
    assert [] + s == s;
  }

  lemma ReadsWord(w: string, rest: string)
    requires IsWord(w) && Delimited(rest)
    ensures ReadWord(Input(w + rest, true)) == (w, Input(rest, true))
    ensures ReadWord(Input(" " + (w + rest), true)) == (w, Input(rest, true))
  {
    assert (w + rest)[0] == w[0];
    SkipsOneSpace(w + rest);
    SpanSplits(w, rest, NON_SPACE);
  }

  lemma ScansDec(n: nat, rest: string)
    requires Delimited(rest)
    ensures ScanNumber(Dec(n) + rest) == Scan(false, Dec(n), rest)
  {
    var s := Dec(n) + rest;
    assert s[0] == Dec(n)[0] && IsDigit(s[0]);
    SpanSplits(Dec(n), rest, DIGIT);
  }

  lemma ReadsPort(n: uint16, rest: string)
    requires Delimited(rest)
    ensures ReadUint16(Input(" " + (Dec(n) + rest), true)) == (n, Input(rest, true))
  {
    hide Dec, SkipSpace, ScanNumber;
    assert (Dec(n) + rest)[0] == Dec(n)[0] && IsDigit(Dec(n)[0]);
    SkipsOneSpace(Dec(n) + rest);
    ScansDec(n, rest);
    DecReadsBack(n);
    hide DigitsValue;
  }

  lemma ReadsFormat(n: nat)
    requires n < 0x8000_0000
    ensures ReadInts(Input(" " + Dec(n), true)) == [n]
  {
    hide Dec, SkipSpace, ScanNumber;
    assert IsDigit(Dec(n)[0]);
    assert Dec(n) + [] == Dec(n);
    SkipsOneSpace(Dec(n));
    ScansDec(n, []);
    DecReadsBack(n);
    assert ReadInt(Input(" " + Dec(n), true)) == (n, Input([], true));
    assert !ReadInt(Input([], true)).1.ok;
  }

  /** An m= line as the builders write it is read back field by field. */
  lemma ReadsMediaLine(kind: string, port: uint16, pt: nat)
    requires IsWord(kind) && pt < 0x8000_0000
    ensures MediaLine(kind + " " + Dec(port) + " RTP/AVP " + Dec(pt)) == Media(kind, port, "RTP/AVP", [pt], "")
  {
    hide ReadWord, ReadUint16, ReadInts, Dec;
    var formats := " " + Dec(pt);
    var protocol := " " + ("RTP/AVP" + formats);
    var ports := " " + (Dec(port) + protocol);
    assert kind + " " + Dec(port) + " RTP/AVP " + Dec(pt) == kind + ports;
    ReadsWord(kind, ports);
    ReadsPort(port, protocol);
    ReadsWord("RTP/AVP", formats);
    ReadsFormat(pt);
  }

  lemma ReadsConnection(addr: string)
    requires IsWord(addr)
    ensures ConnectionAddress("IN IP4 " + addr) == addr
  {
    hide ReadWord;
    var last := " " + (addr + []);
    var middle := " " + ("IP4" + last);
    assert "IN IP4 " + addr == "IN" + middle;
    ReadsWord("IN", middle);
    ReadsWord("IP4", last);
    ReadsWord(addr, []);
  }

  // ---- Lines and texts ----

  function Ended(line: string, eol: string): string { line + eol + "\n" }

  /** The lines one after the other, each ended by eol and a line feed. */
  function Text(lines: seq<string>, eol: string): string {
    if lines == [] then [] else Text(lines[..|lines| - 1], eol) + Ended(lines[|lines| - 1], eol)
  }

  function WithEnds(lines: seq<string>, eol: string): (r: seq<string>)
    ensures |r| == |lines|
  {
    seq(|lines|, i requires 0 <= i < |lines| => lines[i] + eol)
  }

  predicate OneLine(line: string) { All(line, NOT_NEWLINE) }

  predicate Whole(text: string) { text == [] || text[|text| - 1] == '\n' }

  // getline takes what is before the first line feed.
  lemma LineThenRest(line: string, rest: string)
    requires OneLine(line)
    ensures Lines(line + "\n" + rest) == [line] + Lines(rest)
  {
    assert line + "\n" + rest == line + ("\n" + rest);
    SpanSplits(line, "\n" + rest, NOT_NEWLINE);
    assert ("\n" + rest)[1..] == rest;
  }

  // A text of whole lines begins with one.
  lemma WholeBegins(text: string) returns (line: string, rest: string)
    requires Whole(text) && text != []
    ensures OneLine(line) && text == line + "\n" + rest && Whole(rest)
  {
    var (first, after) := Span(text, NOT_NEWLINE);
    assert after != [] by {
      assert text == first + after && text[|text| - 1] == '\n';
    }
    line, rest := first, after[1..];
    assert after == "\n" + rest;
    assert rest != [] ==> rest[|rest| - 1] == text[|text| - 1];
  }

  lemma {:induction false} LinesAppend(text: string, line: string)
    requires Whole(text) && OneLine(line)
    ensures Lines(text + line + "\n") == Lines(text) + [line]
    decreases |text|
  {
    hide Lines, Span, OneLine, Whole;
    EmptyHasNoLines();
    if text == [] {
      assert text + line + "\n" == line + "\n" + [];
      LineThenRest(line, []);
    } else {
      var first, rest := WholeBegins(text);
      LineThenRest(first, rest);
      LineThenRest(first, rest + line + "\n");
      assert text + line + "\n" == first + "\n" + (rest + line + "\n");
      LinesAppend(rest, line);
    }
  }

  lemma EmptyHasNoLines()
    ensures Lines("") == []
  {
  }

  lemma {:induction false} LinesOfText(lines: seq<string>, eol: string)
    requires OneLine(eol) && forall i :: 0 <= i < |lines| ==> OneLine(lines[i])
    ensures Lines(Text(lines, eol)) == WithEnds(lines, eol) && Whole(Text(lines, eol))
  {
    hide Lines;
    if lines == [] {
      EmptyHasNoLines();
    } else {
      var init, last := lines[..|lines| - 1], lines[|lines| - 1];
      LinesOfText(init, eol);
      LinesAppend(Text(init, eol), last + eol);
      assert Text(lines, eol) == Text(init, eol) + (last + eol) + "\n";
      assert WithEnds(lines, eol) == WithEnds(init, eol) + [last + eol];
    }
  }

  // A line without its own carriage return reads the same with one added.
  predicate Plain(line: string) { OneLine(line) && (line == [] || line[|line| - 1] != '\r') }

  predicate IsEol(eol: string) { eol == "" || eol == "\r" }

  lemma StripsEol(line: string, eol: string)
    requires Plain(line) && IsEol(eol)
    ensures StripCr(line + eol) == line
  {
    if eol == "\r" {
      assert (line + eol)[..|line + eol| - 1] == line;
    } else {
      assert line + eol == line;
    }
  }

  lemma {:induction false} EndsAreStripped(p: Progress, lines: seq<string>, eol: string)
    requires p.Valid() && IsEol(eol) && forall i :: 0 <= i < |lines| ==> Plain(lines[i])
    ensures AfterLines(p, WithEnds(lines, eol)) == AfterLines(p, lines)
    decreases |lines|
  {
    if lines != [] {
      StripsEol(lines[0], eol);
      StripsEol(lines[0], "");
      assert lines[0] + "" == lines[0];
      assert AfterLine(p, lines[0] + eol) == AfterLine(p, lines[0]);
      assert WithEnds(lines, eol)[1..] == WithEnds(lines[1..], eol);
      EndsAreStripped(AfterLine(p, lines[0]), lines[1..], eol);
    }
  }

  lemma ParsedText(lines: seq<string>, eol: string, out: Session)
    requires IsEol(eol) && forall i :: 0 <= i < |lines| ==> Plain(lines[i])
    ensures Parsed(Text(lines, eol), out) == AfterLines(Progress(out, false), lines).out
  {
    LinesOfText(lines, eol);
    EndsAreStripped(Progress(out, false), lines, eol);
  }

  lemma {:induction false} AfterLinesConcat(p: Progress, a: seq<string>, b: seq<string>)
    requires p.Valid()
    ensures AfterLines(p, a + b) == AfterLines(AfterLines(p, a), b)
    decreases |a|
  {
    hide AfterLine;
    if a == [] {
      assert a + b == b;
    } else {
      assert (a + b)[1..] == a[1..] + b;
      AfterLinesConcat(AfterLine(p, a[0]), a[1..], b);
    }
  }

  lemma OneMoreLine(p: Progress, line: string)
    requires p.Valid()
    ensures AfterLines(p, [line]) == AfterLine(p, line)
  {
    hide AfterLine;
    assert AfterLines(AfterLine(p, line), []) == AfterLine(p, line);
    assert [line][1..] == [];
  }

  // A last line without a newline is a line too, unless it is empty.
  lemma {:induction false} LinesTail(text: string, line: string)
    requires Whole(text) && OneLine(line) && line != []
    ensures Lines(text + line) == Lines(text) + [line]
    decreases |text|
  {
    hide Lines, Span, OneLine, Whole;
    if text == [] {
      EmptyHasNoLines();
      LastLine(line);
      assert text + line == line;
    } else {
      var first, rest := WholeBegins(text);
      LineThenRest(first, rest);
      LineThenRest(first, rest + line);
      assert text + line == first + "\n" + (rest + line);
      LinesTail(rest, line);
    }
  }

  lemma LastLine(line: string)
    requires OneLine(line) && line != []
    ensures Lines(line) == [line]
  {
    assert line + [] == line;
    SpanSplits(line, [], NOT_NEWLINE);
  }

  lemma EmptyLineChangesNothing(p: Progress, end: string)
    requires p.Valid() && IsEol(end)
    ensures AfterLine(p, "" + end) == p
  {
  }

  // A text of lines and a last one that is not terminated.
  lemma ParsedTail(lines: seq<string>, last: string, eol: string, end: string, out: Session)
    requires IsEol(eol) && IsEol(end) && Plain(last) && forall i :: 0 <= i < |lines| ==> Plain(lines[i])
    ensures Parsed(Text(lines, eol) + (last + end), out)
            == AfterLine(AfterLines(Progress(out, false), lines), last).out
  {
    hide Plain, Lines, Text, AfterLine, Whole;
    var p, tail := Progress(out, false), last + end;
    TailIsOneLine(last, end);
    LinesAreOneLine(lines);
    LinesOfText(lines, eol);
    EndsAreStripped(p, lines, eol);
    if tail == [] {
      assert Text(lines, eol) + tail == Text(lines, eol);
      EmptyLineChangesNothing(AfterLines(p, lines), "");
    } else {
      LinesTail(Text(lines, eol), tail);
      AfterLinesConcat(p, WithEnds(lines, eol), [tail]);
      OneMoreLine(AfterLines(p, lines), tail);
      TailReads(AfterLines(p, lines), last, end);
    }
  }

  lemma TailIsOneLine(last: string, end: string)
    requires Plain(last) && IsEol(end)
    ensures OneLine(last + end)
  {
  }

  lemma LinesAreOneLine(lines: seq<string>)
    requires forall i :: 0 <= i < |lines| ==> Plain(lines[i])
    ensures forall i :: 0 <= i < |lines| ==> OneLine(lines[i])
  {
  }

  lemma TailReads(p: Progress, last: string, end: string)
    requires p.Valid() && Plain(last) && IsEol(end)
    ensures AfterLine(p, last + end) == AfterLine(p, last)
  {
    hide ConnectionAddress, MediaLine, StripCr, Plain;
    StripsEol(last, end);
    StripsEol(last, "");
    assert last + "" == last;
  }

  /** Any text parses the same with CRLF and with bare LF line ends, whether or not its last line is
      terminated, and whether or not an unterminated last line ends in the carriage return alone. */
  lemma LineEndsDoNotMatter(lines: seq<string>, last: string, end: string, out: Session)
    requires (forall i :: 0 <= i < |lines| ==> Plain(lines[i])) && Plain(last) && IsEol(end)
    ensures Parsed(Text(lines, "\r") + (last + end), out) == Parsed(Text(lines, "") + last, out)
  {
    ParsedTail(lines, last, "\r", end, out);
    ParsedTail(lines, last, "", "", out);
    assert last + "" == last;
  }

  // ---- The round trip ----

  lemma TextAppend(lines: seq<string>, line: string, eol: string)
    ensures Text(lines + [line], eol) == Text(lines, eol) + Ended(line, eol)
  {
    assert (lines + [line])[..|lines|] == lines;
  }

  lemma TwoLines(p: Progress, a: string, b: string)
    requires p.Valid()
    ensures AfterLines(p, [a, b]) == AfterLine(AfterLine(p, a), b)
  {
    OneMoreLine(p, a);
    OneMoreLine(AfterLine(p, a), b);
    AfterLinesConcat(p, [a], [b]);
    hide AfterLine, AfterLines;
    assert [a] + [b] == [a, b];
  }

  // The lines of an answer, which ends every one of them with CRLF.
  function MediaLines(kind: string, port: uint16, pt: nat, codec: string): seq<string> {
    [MediaText(kind, port, pt), "a=" + MapText(pt, codec)]
  }

  function MediaText(kind: string, port: uint16, pt: nat): string {
    "m=" + (kind + " " + Dec(port) + " RTP/AVP " + Dec(pt))
  }

  function MapText(pt: nat, codec: string): string { "rtpmap:" + Dec(pt) + codec }

  function HeadLines(addr: string): seq<string> {
    ["v=0", "o=rtcom 1 1 IN IP4 " + addr, "s=rtcom", "c=IN IP4 " + addr, "t=0 0"]
  }

  function AnswerLines(addr: string, audioPort: uint16, videoPort: uint16, audioPt: nat, videoPt: nat): seq<string> {
    HeadLines(addr) + MediaLines("audio", audioPort, audioPt, " AAC/44100/1")
    + MediaLines("video", videoPort, videoPt, " H264/90000")
  }

  lemma TextOfNine(a: string, b: string, c: string, d: string, e: string, f: string, g: string, h: string, i: string)
    ensures Text([a, b, c, d, e, f, g, h, i], "\r")
            == Crlf(a) + Crlf(b) + Crlf(c) + Crlf(d) + Crlf(e) + Crlf(f) + Crlf(g) + Crlf(h) + Crlf(i)
  {
    hide Text, Ended;
    TextOfOne(a);
    CrlfAppend([a], b, [a, b]);
    CrlfAppend([a, b], c, [a, b, c]);
    CrlfAppend([a, b, c], d, [a, b, c, d]);
    CrlfAppend([a, b, c, d], e, [a, b, c, d, e]);
    CrlfAppend([a, b, c, d, e], f, [a, b, c, d, e, f]);
    CrlfAppend([a, b, c, d, e, f], g, [a, b, c, d, e, f, g]);
    CrlfAppend([a, b, c, d, e, f, g], h, [a, b, c, d, e, f, g, h]);
    CrlfAppend([a, b, c, d, e, f, g, h], i, [a, b, c, d, e, f, g, h, i]);
  }

  lemma TextOfOne(line: string)
    ensures Text([line], "\r") == Crlf(line)
  {
    assert [line][..0] == [];
    assert Ended(line, "\r") == Crlf(line);
  }

  lemma CrlfAppend(lines: seq<string>, line: string, longer: seq<string>)
    requires longer == lines + [line]
    ensures Text(longer, "\r") == Text(lines, "\r") + Crlf(line)
  {
    TextAppend(lines, line, "\r");
    assert Ended(line, "\r") == Crlf(line);
  }

  lemma AnswerIsText(addr: string, audioPort: uint16, videoPort: uint16, audioPt: nat, videoPt: nat)
    ensures BuildAnswer(addr, audioPort, videoPort, audioPt, videoPt)
            == Text(AnswerLines(addr, audioPort, videoPort, audioPt, videoPt), "\r")
    ensures AnswerLines(addr, audioPort, videoPort, audioPt, videoPt) ==
            ["v=0", "o=rtcom 1 1 IN IP4 " + addr, "s=rtcom", "c=IN IP4 " + addr, "t=0 0",
             "m=audio " + Dec(audioPort) + " RTP/AVP " + Dec(audioPt), "a=rtpmap:" + Dec(audioPt) + " AAC/44100/1",
             "m=video " + Dec(videoPort) + " RTP/AVP " + Dec(videoPt), "a=rtpmap:" + Dec(videoPt) + " H264/90000"]
  {
    hide Text, Crlf, Dec;
    var audio, video := MediaText("audio", audioPort, audioPt), MediaText("video", videoPort, videoPt);
    var audioMap, videoMap := "a=" + MapText(audioPt, " AAC/44100/1"), "a=" + MapText(videoPt, " H264/90000");
    var o, c := "o=rtcom 1 1 IN IP4 " + addr, "c=IN IP4 " + addr;
    MediaTextIs("audio", audioPort, audioPt, "m=audio ");
    MediaTextIs("video", videoPort, videoPt, "m=video ");
    assert audioMap == "a=rtpmap:" + Dec(audioPt) + " AAC/44100/1";
    assert videoMap == "a=rtpmap:" + Dec(videoPt) + " H264/90000";
    TextOfNine("v=0", o, "s=rtcom", c, "t=0 0", audio, audioMap, video, videoMap);
    assert AnswerLines(addr, audioPort, videoPort, audioPt, videoPt)
           == ["v=0", o, "s=rtcom", c, "t=0 0", audio, audioMap, video, videoMap];
  }

  lemma MediaTextIs(kind: string, port: uint16, pt: nat, head: string)
    requires head == "m=" + kind + " "
    ensures MediaText(kind, port, pt) == head + Dec(port) + " RTP/AVP " + Dec(pt)
  {
  }

  // ---- Line by line ----

  lemma PlainIsKept(line: string)
    requires Plain(line)
    ensures StripCr(line) == line
  {
  }

  // A line the parser passes over.
  predicate Ignored(line: string) {
    Plain(line) && line != [] && line[0] != 'c' && line[0] != 'm' && line[0] != 'a'
  }

  lemma IgnoredChangesNothing(p: Progress, line: string)
    requires p.Valid() && Ignored(line)
    ensures AfterLine(p, line) == p
  {
    PlainIsKept(line);
  }

  lemma ConnectionLine(p: Progress, addr: string)
    requires p.Valid() && IsWord(addr)
    ensures Plain("c=IN IP4 " + addr)
    ensures AfterLine(p, "c=IN IP4 " + addr) == p.(out := p.out.(connAddr := addr))
  {
    hide ConnectionAddress;
    var line := "c=IN IP4 " + addr;
    assert !IsSpace(addr[|addr| - 1]) && line[|line| - 1] == addr[|addr| - 1];
    assert forall i :: 0 <= i < |addr| ==> NON_SPACE(addr[i]) && addr[i] != '\n';
    PlainIsKept(line);
    assert line[2..] == "IN IP4 " + addr;
    ReadsConnection(addr);
  }

  lemma DecIsPlain(n: nat)
    ensures OneLine(Dec(n)) && Dec(n)[|Dec(n)| - 1] != '\r'
  {
    hide Dec;
    assert forall i :: 0 <= i < |Dec(n)| ==> IsDigit(Dec(n)[i]);
  }

  lemma MediaTextIsPlain(kind: string, port: uint16, pt: nat)
    requires IsWord(kind)
    ensures Plain(MediaText(kind, port, pt))
  {
    hide Dec;
    var line := MediaText(kind, port, pt);
    DecIsPlain(port);
    DecIsPlain(pt);
    assert forall i :: 0 <= i < |kind| ==> NON_SPACE(kind[i]) && kind[i] != '\n';
    assert line[|line| - 1] == Dec(pt)[|Dec(pt)| - 1];
  }

  lemma MediaLineStep(p: Progress, kind: string, port: uint16, pt: nat)
    requires p.Valid() && IsWord(kind) && pt < 0x8000_0000
    ensures Plain(MediaText(kind, port, pt))
    ensures AfterLine(p, MediaText(kind, port, pt))
            == Progress(p.out.(media := p.out.media + [Media(kind, port, "RTP/AVP", [pt], "")]), true)
  {
    hide MediaLine, Dec, Plain, StripCr;
    var line := MediaText(kind, port, pt);
    MediaTextIsPlain(kind, port, pt);
    PlainIsKept(line);
    var text := kind + " " + Dec(port) + " RTP/AVP " + Dec(pt);
    assert line == "m=" + text && line[2..] == text && line[0] == 'm';
    ReadsMediaLine(kind, port, pt);
  }

  lemma MapTextIsPlain(pt: nat, codec: string)
    requires Plain(codec) && codec != []
    ensures Plain("a=" + MapText(pt, codec))
  {
    hide Dec;
    var line := "a=" + MapText(pt, codec);
    DecIsPlain(pt);
    assert line[|line| - 1] == codec[|codec| - 1];
  }

  lemma MapLineStep(p: Progress, pt: nat, codec: string)
    requires p.Valid() && p.inMedia && Plain(codec) && codec != []
    ensures Plain("a=" + MapText(pt, codec))
    ensures var last := |p.out.media| - 1;
            AfterLine(p, "a=" + MapText(pt, codec))
            == p.(out := p.out.(media := p.out.media[last := p.out.media[last].(rtpmap := MapText(pt, codec))]))
  {
    hide Dec, Plain, StripCr;
    var line := "a=" + MapText(pt, codec);
    MapTextIsPlain(pt, codec);
    PlainIsKept(line);
    assert line == "a=rtpmap:" + (Dec(pt) + codec);
    assert line[..9] == "a=rtpmap:" && line[0] == 'a';
    assert line[2..] == MapText(pt, codec);
  }

  // A media line and its map line, one after the other, add one entry.
  lemma MediaLinesAdd(p: Progress, kind: string, port: uint16, pt: nat, codec: string)
    requires p.Valid() && IsWord(kind) && pt < 0x8000_0000 && Plain(codec) && codec != []
    ensures forall i :: 0 <= i < 2 ==> Plain(MediaLines(kind, port, pt, codec)[i])
    ensures AfterLines(p, MediaLines(kind, port, pt, codec))
            == Progress(p.out.(media := p.out.media + [Media(kind, port, "RTP/AVP", [pt], MapText(pt, codec))]), true)
  {
    hide AfterLine, Plain, MediaText, MapText;
    MediaLineStep(p, kind, port, pt);
    MapLineStep(AfterLine(p, MediaText(kind, port, pt)), pt, codec);
    TwoLines(p, MediaText(kind, port, pt), "a=" + MapText(pt, codec));
  }

  lemma HeadSetsAddress(p: Progress, addr: string)
    requires p.Valid() && IsWord(addr)
    ensures forall i :: 0 <= i < 5 ==> Plain(HeadLines(addr)[i])
    ensures AfterLines(p, HeadLines(addr)) == p.(out := p.out.(connAddr := addr))
  {
    hide AfterLine;
    var origin, after := "o=rtcom 1 1 IN IP4 " + addr, p.(out := p.out.(connAddr := addr));
    ConnectionLine(p, addr);
    assert Ignored(origin) by {
      assert forall i :: 0 <= i < |addr| ==> NON_SPACE(addr[i]) && addr[i] != '\n';
      assert origin[|origin| - 1] == addr[|addr| - 1];
    }
    IgnoredChangesNothing(p, "v=0");
    IgnoredChangesNothing(p, origin);
    IgnoredChangesNothing(p, "s=rtcom");
    IgnoredChangesNothing(after, "t=0 0");
    hide Ignored, Plain;
    TwoLines(p, "v=0", origin);
    TwoLines(p, "s=rtcom", "c=IN IP4 " + addr);
    AfterLinesConcat(p, ["v=0", origin], ["s=rtcom", "c=IN IP4 " + addr]);
    AfterLinesConcat(p, ["v=0", origin] + ["s=rtcom", "c=IN IP4 " + addr], ["t=0 0"]);
    OneMoreLine(after, "t=0 0");
    assert HeadLines(addr) == ["v=0", origin] + ["s=rtcom", "c=IN IP4 " + addr] + ["t=0 0"];
  }

  lemma AnswerPieces()
    ensures Plain(" AAC/44100/1") && Plain(" H264/90000") && IsWord("audio") && IsWord("video")
  {
  }

  lemma AnswerIsPlain(addr: string, audioPort: uint16, videoPort: uint16, audioPt: nat, videoPt: nat)
    requires IsWord(addr) && audioPt < 0x8000_0000 && videoPt < 0x8000_0000
    ensures var lines := AnswerLines(addr, audioPort, videoPort, audioPt, videoPt);
            forall i :: 0 <= i < |lines| ==> Plain(lines[i])
  {
    hide AfterLine, Plain, MapText, MediaText, AfterLines, IsWord;
    AnswerPieces();
    var p := Progress(Session("", []), false);
    HeadSetsAddress(p, addr);
    MediaLinesAdd(p, "audio", audioPort, audioPt, " AAC/44100/1");
    MediaLinesAdd(p, "video", videoPort, videoPt, " H264/90000");
  }

  lemma AfterAnswer(p: Progress, addr: string, audioPort: uint16, videoPort: uint16, audioPt: nat, videoPt: nat)
    requires p.Valid() && IsWord(addr) && audioPt < 0x8000_0000 && videoPt < 0x8000_0000
    ensures AfterLines(p, AnswerLines(addr, audioPort, videoPort, audioPt, videoPt)).out
            == Session(addr, p.out.media + [
                 Media("audio", audioPort, "RTP/AVP", [audioPt], MapText(audioPt, " AAC/44100/1")),
                 Media("video", videoPort, "RTP/AVP", [videoPt], MapText(videoPt, " H264/90000"))])
  {
    hide AfterLine, Plain, HeadLines, MediaLines, MapText, AfterLines, IsWord;
    AnswerPieces();
    var head := HeadLines(addr);
    var audio := MediaLines("audio", audioPort, audioPt, " AAC/44100/1");
    var video := MediaLines("video", videoPort, videoPt, " H264/90000");
    HeadSetsAddress(p, addr);
    MediaLinesAdd(AfterLines(p, head), "audio", audioPort, audioPt, " AAC/44100/1");
    MediaLinesAdd(AfterLines(p, head + audio), "video", videoPort, videoPt, " H264/90000");
    AfterLinesConcat(p, head, audio);
    AfterLinesConcat(p, head + audio, video);
  }

  lemma FindsSecond(first: Media, second: Media)
    requires first.kind != second.kind
    ensures FirstOf([first, second], second.kind) == Some(second)
  {
    assert [first, second][1..] == [second];
    assert FirstOf([second], second.kind) == Some(second);
  }

  /** What BuildAnswer prints, Parse reads back: the address, and the two media entries with their
      ports, protocol, formats and maps, whichever line ending carries the text. */
  lemma AnswerRoundTrip(addr: string, audioPort: uint16, videoPort: uint16, audioPt: nat, videoPt: nat, eol: string)
    requires IsWord(addr) && audioPt < 0x8000_0000 && videoPt < 0x8000_0000 && IsEol(eol)
    ensures BuildAnswer(addr, audioPort, videoPort, audioPt, videoPt)
            == Text(AnswerLines(addr, audioPort, videoPort, audioPt, videoPt), "\r")
    ensures var audio := Media("audio", audioPort, "RTP/AVP", [audioPt], "rtpmap:" + Dec(audioPt) + " AAC/44100/1");
            var video := Media("video", videoPort, "RTP/AVP", [videoPt], "rtpmap:" + Dec(videoPt) + " H264/90000");
            var s := Parsed(Text(AnswerLines(addr, audioPort, videoPort, audioPt, videoPt), eol), Session("", []));
            && s == Session(addr, [audio, video])
            && s.FindAudio() == Some(audio) && s.FindVideo() == Some(video)
  {
    hide Dec, AnswerLines, Text, AfterLines, Parsed, Plain;
    AnswerIsText(addr, audioPort, videoPort, audioPt, videoPt);
    AfterAnswer(Progress(Session("", []), false), addr, audioPort, videoPort, audioPt, videoPt);
    AnswerIsPlain(addr, audioPort, videoPort, audioPt, videoPt);
    ParsedText(AnswerLines(addr, audioPort, videoPort, audioPt, videoPt), eol, Session("", []));
    var audio := Media("audio", audioPort, "RTP/AVP", [audioPt], MapText(audioPt, " AAC/44100/1"));
    var video := Media("video", videoPort, "RTP/AVP", [videoPt], MapText(videoPt, " H264/90000"));
    assert [] + [audio, video] == [audio, video];
    assert audio.kind[0] != video.kind[0];
    FindsSecond(audio, video);
  }
}
