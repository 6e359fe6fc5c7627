// What Parse makes of received lines, beyond those the builders write.
module SdpLines {
  import opened Words
  import opened Sdp
  import opened SdpProofs

  // ---- Words and signs ----

  /** Any of the six white-space characters separates words. */
  lemma AnySpaceSeparates(c: char, w: string, rest: string)
    requires c == ' ' || c == '\t' || c == '\n' || c == '\r' || c == '\U{0B}' || c == '\U{0C}'
    requires IsWord(w) && Delimited(rest)
    ensures ReadWord(Input([c] + (w + rest), true)) == (w, Input(rest, true))
  {
    assert (w + rest)[0] == w[0];
    SpanSplits([c], w + rest, SPACE);
    SpanSplits(w, rest, NON_SPACE);
  }

  /** And nothing else does: a text without them is one word. */
  lemma WordsHaveNoSpace(w: string)
    requires w != ""
    ensures IsWord(w) <==> forall i :: 0 <= i < |w| ==>
              w[i] != ' ' && w[i] != '\t' && w[i] != '\n' && w[i] != '\r' && w[i] != '\U{0B}' && w[i] != '\U{0C}'
  {
    if IsWord(w) {
      assert forall i :: 0 <= i < |w| ==> NON_SPACE(w[i]);
    }
  }

  lemma ScansSigned(sign: string, n: nat, rest: string)
    requires (sign == "" || sign == "-" || sign == "+") && Delimited(rest)
    ensures ScanNumber(sign + (Dec(n) + rest)) == Scan(sign == "-", Dec(n), rest)
  {
    var s := sign + (Dec(n) + rest);
    assert (Dec(n) + rest)[0] == Dec(n)[0] && IsDigit(Dec(n)[0]);
    assert s[|sign|..] == Dec(n) + rest;
    SpanSplits(Dec(n), rest, DIGIT);
  }

  /** A number that fits an int is read with its sign, which may be a plus; one that does not ends the reading. */
  lemma ReadsSigned(sign: string, n: nat, rest: string)
    requires (sign == "" || sign == "-" || sign == "+") && Delimited(rest)
    ensures var v, r := (if sign == "-" then -1 else 1) * n, ReadInt(Input(" " + (sign + (Dec(n) + rest)), true));
            if -0x8000_0000 <= v < 0x8000_0000 then r == (v, Input(rest, true)) else !r.1.ok
  {
    hide Dec, SkipSpace, ScanNumber;
    var s := sign + (Dec(n) + rest);
    assert s[0] == (if sign == "" then Dec(n)[0] else sign[0]) && (sign == "" ==> IsDigit(Dec(n)[0]));
    SkipsOneSpace(s);
    ScansSigned(sign, n, rest);
    DecReadsBack(n);
    hide DigitsValue;
  }

  /** A port written with a minus sign wraps in 16 bits. */
  lemma NegativePortWraps(n: nat, rest: string)
    requires 0 < n < 0x1_0000 && Delimited(rest)
    ensures ReadUint16(Input(" " + ("-" + (Dec(n) + rest)), true)) == (0x1_0000 - n, Input(rest, true))
  {
    hide Dec, SkipSpace, ScanNumber;
    SkipsOneSpace("-" + (Dec(n) + rest));
    ScansSigned("-", n, rest);
    DecReadsBack(n);
    hide DigitsValue;
  }

  // ---- Lists of formats ----

  // Payload types as an m= line carries them, a space before each.
  function FormatsText(pts: seq<int>): string {
    if pts == [] then "" else " " + (DecInt(pts[0]) + FormatsText(pts[1..]))
  }

  predicate AreInts(pts: seq<int>) { forall i :: 0 <= i < |pts| ==> -0x8000_0000 <= pts[i] < 0x8000_0000 }

  /** Nothing more, or a token that is no number, whatever follows it. */
  predicate EndsFormats(rest: string) {
    rest == "" || (2 <= |rest| && rest[0] == ' ' && !IsSpace(rest[1]) && !IsDigit(rest[1])
                   && rest[1] != '-' && rest[1] != '+')
  }

  // Where reading integers stops.
  predicate Stops(rest: string) { Delimited(rest) && !ReadInt(Input(rest, true)).1.ok }

  lemma NoNumberStops(rest: string)
    requires EndsFormats(rest)
    ensures Stops(rest)
  {
    if rest != "" {
      assert rest == " " + rest[1..];
      SkipsOneSpace(rest[1..]);
    }
  }

  lemma ReadsNumber(n: int, rest: string)
    requires Delimited(rest)
    ensures var r := ReadInt(Input(" " + (DecInt(n) + rest), true));
            if -0x8000_0000 <= n < 0x8000_0000 then r == (n, Input(rest, true)) else !r.1.ok
  {
    hide ReadInt, Dec;
    if n < 0 {
      ReadsSigned("-", -n, rest);
      assert DecInt(n) + rest == "-" + (Dec(-n) + rest);
    } else {
      ReadsSigned("", n, rest);
      assert "" + (Dec(n) + rest) == DecInt(n) + rest;
    }
  }

  lemma FormatsDelimit(pts: seq<int>, rest: string)
    requires Delimited(rest)
    ensures Delimited(FormatsText(pts) + rest)
  {
    hide Dec;
    if pts == [] {
      assert FormatsText(pts) + rest == rest;
    }
  }

  lemma {:induction false} ReadsUpTo(pts: seq<int>, rest: string)
    requires AreInts(pts) && Stops(rest)
    ensures ReadInts(Input(FormatsText(pts) + rest, true)) == pts
    decreases |pts|
  {
    hide DecInt, ReadInt, Delimited;
    if pts == [] {
      assert FormatsText(pts) + rest == rest;
    } else {
      var more := FormatsText(pts[1..]) + rest;
      assert FormatsText(pts) + rest == " " + (DecInt(pts[0]) + more);
      FormatsDelimit(pts[1..], rest);
      ReadsNumber(pts[0], more);
      ReadsUpTo(pts[1..], rest);
      assert pts == [pts[0]] + pts[1..];
    }
  }

  /** The formats of a line are read in order, each of them, up to the first token that is no number. */
  lemma ReadsFormats(pts: seq<int>, rest: string)
    requires AreInts(pts) && EndsFormats(rest)
    ensures ReadInts(Input(FormatsText(pts) + rest, true)) == pts
  {
    hide Stops;
    NoNumberStops(rest);
    ReadsUpTo(pts, rest);
  }

  /** And up to the first number that does not fit an int. */
  lemma ReadsFormatsInRange(pts: seq<int>, n: int, rest: string)
    requires AreInts(pts) && (n < -0x8000_0000 || 0x8000_0000 <= n) && Delimited(rest)
    ensures ReadInts(Input(FormatsText(pts) + (" " + (DecInt(n) + rest)), true)) == pts
  {
    hide DecInt, ReadInt;
    ReadsNumber(n, rest);
    ReadsUpTo(pts, " " + (DecInt(n) + rest));
  }

  /** An m= line with any number of formats, and with anything after a token that is none. */
  lemma ReadsAnyMediaLine(kind: string, port: uint16, protocol: string, pts: seq<int>, rest: string)
    requires IsWord(kind) && IsWord(protocol) && AreInts(pts) && EndsFormats(rest)
    ensures MediaLine(kind + (" " + (Dec(port) + (" " + (protocol + (FormatsText(pts) + rest))))))
            == Media(kind, port, protocol, pts, "")
  {
    hide ReadWord, ReadUint16, ReadInts, Dec, FormatsText, EndsFormats;
    var formats := FormatsText(pts) + rest;
    var protocols := " " + (protocol + formats);
    var ports := " " + (Dec(port) + protocols);
    NoNumberStops(rest);
    FormatsDelimit(pts, rest);
    hide Stops;
    ReadsWord(kind, ports);
    ReadsPort(port, protocols);
    ReadsWord(protocol, formats);
    ReadsFormats(pts, rest);
  }

  /** A port out of range reads as 65535, and nothing after it is read. */
  lemma PortOutOfRange(kind: string, port: nat, rest: string)
    requires IsWord(kind) && 0x1_0000 <= port && Delimited(rest)
    ensures MediaLine(kind + (" " + (Dec(port) + rest))) == Media(kind, 65535, "", [], "")
  {
    hide Dec, SkipSpace, ScanNumber;
    var ports := " " + (Dec(port) + rest);
    ReadsWord(kind, ports);
    assert (Dec(port) + rest)[0] == Dec(port)[0] && IsDigit(Dec(port)[0]);
    SkipsOneSpace(Dec(port) + rest);
    ScansDec(port, rest);
    DecReadsBack(port);
    hide DigitsValue;
  }

  /** A port that is missing or no number reads as 0, and nothing after it is read. */
  lemma PortMissing(kind: string, rest: string)
    requires IsWord(kind) && EndsFormats(rest)
    ensures MediaLine(kind + rest) == Media(kind, 0, "", [], "")
  {
    ReadsWord(kind, rest);
    if rest != "" {
      assert rest == " " + rest[1..];
      SkipsOneSpace(rest[1..]);
    }
  }

  // ---- Other lines ----

  /** An rtpmap line belongs to the media line before it and changes nothing else; before any media line
      of its text it is ignored. */
  lemma RtpmapGoesToLast(p: Progress, text: string)
    requires p.Valid() && Plain("a=rtpmap:" + text)
    ensures var after, n := AfterLine(p, "a=rtpmap:" + text), |p.out.media|;
            && (!p.inMedia ==> after == p)
            && (p.inMedia ==>
                  && after.inMedia && after.out.connAddr == p.out.connAddr && |after.out.media| == n
                  && after.out.media[..n - 1] == p.out.media[..n - 1]
                  && after.out.media[n - 1] == p.out.media[n - 1].(rtpmap := "rtpmap:" + text))
  {
    var line := "a=rtpmap:" + text;
    PlainIsKept(line);
    hide StripCr, Plain;
    assert line[0] == 'a' && "a=rtpmap:" <= line && line[2..] == "rtpmap:" + text;
  }

  /** A connection line replaces the address by its third word, whatever follows that; one without a third
      word leaves it. */
  lemma ConnectionReplaces(p: Progress, first: string, second: string, addr: string, rest: string)
    requires p.Valid() && IsWord(addr) && IsWord(first) && IsWord(second) && Delimited(rest)
    ensures var line := "c=" + (first + (" " + (second + (" " + (addr + rest)))));
            Plain(line) ==> AfterLine(p, line) == p.(out := p.out.(connAddr := addr))
    ensures var line := "c=" + (first + (" " + (second + ""))); Plain(line) ==> AfterLine(p, line) == p
    ensures AfterLine(p, "c=") == p
  {
    hide ReadWord, StripCr, Plain;
    var last := " " + (addr + rest);
    ReadsWord(addr, rest);
    ReadsWord(second, last);
    ReadsWord(first, " " + (second + last));
    ReadsWord(second, "");
    ReadsWord(first, " " + (second + ""));
    NothingToRead(p);
    var long, short := first + (" " + (second + last)), first + (" " + (second + ""));
    if Plain("c=" + long) {
      ConnectionLineIs(p, long);
    }
    if Plain("c=" + short) {
      ConnectionLineIs(p, short);
    }
  }

  lemma ConnectionLineIs(p: Progress, text: string)
    requires p.Valid() && Plain("c=" + text)
    ensures var addr := ConnectionAddress(text);
            AfterLine(p, "c=" + text) == if addr == "" then p else p.(out := p.out.(connAddr := addr))
  {
    PlainIsKept("c=" + text);
    hide ConnectionAddress, StripCr, Plain;
    assert ("c=" + text)[2..] == text;
  }

  lemma NothingToRead(p: Progress)
    requires p.Valid()
    ensures ReadWord(Input("", true)) == ("", Input("", false)) && ReadWord(Input("", false)) == ("", Input("", false))
    ensures AfterLine(p, "c=") == p
  {
    assert StripCr("c=") == "c=" && "c="[2..] == "";
  }

  /** Attributes other than rtpmap are ignored, as are all lines but connection, media and attributes. */
  lemma OthersIgnored(p: Progress, line: string)
    requires p.Valid() && Plain(line)
    requires !("c=" <= line) && !("m=" <= line) && !("a=rtpmap:" <= line)
    ensures AfterLine(p, line) == p
  {
    PlainIsKept(line);
  }

  /** The entries that FindAudio and FindVideo return are the first of their kind, whatever else is there. */
  lemma FindsFirst(s: Session, i: nat, kind: string)
    requires i < |s.media| && s.media[i].kind == kind && forall j :: 0 <= j < i ==> s.media[j].kind != kind
    ensures kind == "audio" ==> s.FindAudio() == Some(s.media[i])
    ensures kind == "video" ==> s.FindVideo() == Some(s.media[i])
  {
  }
}
