/** How the proxy assembles the two lines of its control connection from a stream that arrives in
    arbitrary pieces. */
module TimingProxy {
  import opened Wrappers

  const NEWLINE: char := '\n'
  const NUL: char := '\0'

  function Concat(chunks: seq<string>): string {
    if chunks == [] then "" else chunks[0] + Concat(chunks[1..])
  }

  predicate Without(s: string, c: char) {
    forall i :: 0 <= i < |s| ==> s[i] != c
  }

  /** The first line and what follows it, if there is a newline. */
  function SplitLine(s: string): (r: Option<(string, string)>)
    ensures r.Some? ==> Without(r.value.0, NEWLINE) && s == r.value.0 + [NEWLINE] + r.value.1
    ensures r.None? ==> Without(s, NEWLINE)
  {
    if s == "" then None
    else if s[0] == NEWLINE then Some(("", s[1..]))
    else
      match SplitLine(s[1..])
      case None => None
      case Some((head, tail)) => Some(([s[0]] + head, tail))
  }

  /** More text behind a complete line does not change the line. */
  lemma {:induction false} SplitLineAppend(s: string, t: string)
    requires SplitLine(s).Some?
    ensures SplitLine(s + t) == Some((SplitLine(s).value.0, SplitLine(s).value.1 + t))
  {
    assert (s + t)[0] == s[0] && (s + t)[1..] == s[1..] + t;
    if s[0] != NEWLINE {
      SplitLineAppend(s[1..], t);
    }
  }

  /** str.find("\n") */
  method Find(s: string) returns (pos: Option<nat>)
    ensures pos.Some? ==> pos.value < |s| && s[pos.value] == NEWLINE && Without(s[..pos.value], NEWLINE)
    ensures pos.None? ==> Without(s, NEWLINE)
  {
    var i := 0;
    while i < |s|
      invariant 0 <= i <= |s| && Without(s[..i], NEWLINE)
    {
      if s[i] == NEWLINE {
        return Some(i);
      }
      i := i + 1;
    }
    return None;
  }

  lemma {:induction false} SplitAt(s: string, pos: nat)
    requires pos < |s| && s[pos] == NEWLINE && Without(s[..pos], NEWLINE)
    ensures SplitLine(s) == Some((s[..pos], s[pos + 1..]))
  {
    if pos > 0 {
      assert s[..pos][0] == s[0];
      assert s[1..][..pos - 1] == s[..pos][1..];
      SplitAt(s[1..], pos - 1);
      assert s[..pos] == [s[0]] + s[1..][..pos - 1];
    }
  }

  lemma {:induction false} NoLine(s: string)
    requires Without(s, NEWLINE)
    ensures SplitLine(s).None?
  {
    if s != "" {
      NoLine(s[1..]);
    }
  }

  /** std::string(buf): the text up to the first NUL. */
  function CString(s: string): (r: string)
    ensures r <= s
    ensures Without(s, NUL) ==> r == s
  {
    if s == "" || s[0] == NUL then "" else [s[0]] + CString(s[1..])
  }

  /** What the proxy makes of the chunks. */
  function Text(chunks: seq<string>): string {
    if chunks == [] then "" else CString(chunks[0]) + Text(chunks[1..])
  }

  datatype Line = Line(head: string, tail: string, used: nat) | StillWaiting

  /** Reads from the control connection until the text holds a newline, and not once more; `used` chunks
      were read. When the chunks run out first, the source would go on waiting. */
  method GetLine(prepend: string, chunks: seq<string>) returns (line: Line)
    ensures line.Line? ==>
              && line.used <= |chunks|
              && SplitLine(prepend + Text(chunks[..line.used])) == Some((line.head, line.tail))
    ensures line.Line? && line.used > 0 ==> SplitLine(prepend + Text(chunks[..line.used - 1])).None?
    ensures line.StillWaiting? ==> SplitLine(prepend + Text(chunks)).None?
  {
    hide SplitLine, CString, Concat;
    var str := prepend;
    var head, tail := "", "";
    var pos: Option<nat> := None;
    var used := 0;
    assert chunks[..0] == [] && str == prepend + Text([]);
    while pos.None?
      invariant 0 <= used <= |chunks|
      invariant str == prepend + Text(chunks[..used])
      invariant used > 0 ==> SplitLine(prepend + Text(chunks[..used - 1])).None?
      invariant pos.Some? ==> SplitLine(str) == Some((head, tail))
      decreases |chunks| - used, pos.None?
    {
      pos := Find(str);
      if pos.Some? {
        SplitAt(str, pos.value);
        head := str[..pos.value];
        tail := str[pos.value + 1..];
      } else {
        NoLine(str);
        if used == |chunks| {
          assert chunks[..used] == chunks;
          return StillWaiting;
        }
        ReadOne(chunks, used);
        Associate(prepend, Text(chunks[..used]), CString(chunks[used]));
        str := str + CString(chunks[used]);
        used := used + 1;
      }
    }
    return Line(head, tail, used);
  }

  lemma {:induction false} TextSplit(chunks: seq<string>, used: nat)
    requires used <= |chunks|
    ensures Text(chunks) == Text(chunks[..used]) + Text(chunks[used..])
  {
    if used == 0 {
      assert chunks[..0] == [] && chunks[0..] == chunks;
    } else {
      var tail := chunks[1..];
      TextSplit(tail, used - 1);
      assert chunks[..used][1..] == tail[..used - 1] && chunks[used..] == tail[used - 1..];
      Associate(CString(chunks[0]), Text(tail[..used - 1]), Text(tail[used - 1..]));
    }
  }

  lemma Associate(s: string, t: string, u: string)
    ensures s + (t + u) == s + t + u
  {
  }

  lemma ReadOne(chunks: seq<string>, used: nat)
    requires used < |chunks|
    ensures Text(chunks[..used + 1]) == Text(chunks[..used]) + CString(chunks[used])
  {
    var seen := chunks[..used + 1];
    TextSplit(seen, used);
    assert seen[..used] == chunks[..used] && seen[used..] == [chunks[used]];
    OneChunk(chunks[used]);
  }

  lemma OneChunk(s: string)
    ensures Text([s]) == CString(s) && Concat([s]) == s
  {
    assert [s][1..] == [];
  }

  datatype Target = Target(host: string, port: string) | Incomplete

  /** The first two lines of a text. */
  function FirstTwoLines(text: string): Target {
    match SplitLine(text)
    case None => Incomplete
    case Some((host, rest)) =>
      match SplitLine(rest)
      case None => Incomplete
      case Some((port, _)) => Target(host, port)
  }

  /** The target depends on the chunks only through the text that they add up to, wherever the cuts
      are, although the first line may be complete long before the last chunk is read. stoi converts the
      port; None stands for its exceptions. */
  method GetProxyTarget(chunks: seq<string>, stoi: string -> Option<int>)
    returns (target: Target, connectPort: Option<int>)
    ensures target == FirstTwoLines(Text(chunks))
    ensures connectPort == if target == Incomplete then None else stoi(target.port)
  {
    target, connectPort := Incomplete, None;
    var first := GetLine("", chunks);
    match first
    case StillWaiting =>
      assert "" + Text(chunks) == Text(chunks);
    case Line(host, rest, used) =>
      var second := GetLine(rest, chunks[used..]);
      FirstLineFound(chunks, used, host, rest);
      match second {
        case StillWaiting =>
        case Line(port, rest2, used2) =>
          SecondLineFound(rest, chunks[used..], used2, port, rest2);
          target, connectPort := Target(host, port), stoi(port);
      }
  }

  lemma FirstLineFound(chunks: seq<string>, used: nat, host: string, rest: string)
    requires used <= |chunks| && SplitLine("" + Text(chunks[..used])) == Some((host, rest))
    ensures SplitLine(Text(chunks)) == Some((host, rest + Text(chunks[used..])))
  {
    var seen := Text(chunks[..used]);
    assert "" + seen == seen;
    TextSplit(chunks, used);
    SplitLineAppend(seen, Text(chunks[used..]));
  }

  lemma SecondLineFound(rest: string, chunks: seq<string>, used: nat, port: string, rest2: string)
    requires used <= |chunks| && SplitLine(rest + Text(chunks[..used])) == Some((port, rest2))
    ensures SplitLine(rest + Text(chunks)) == Some((port, rest2 + Text(chunks[used..])))
  {
    hide SplitLine, CString, Text;
    var seen, unread := Text(chunks[..used]), Text(chunks[used..]);
    TextSplit(chunks, used);
    SplitLineAppend(rest + seen, unread);
    Associate(rest, seen, unread);
  }

  /** The text is the stream itself exactly when the stream holds no NUL: the C string conversion drops
      the rest of any chunk from its first NUL on. */
  lemma {:induction false} TextIsStream(chunks: seq<string>)
    ensures |Text(chunks)| <= |Concat(chunks)|
    ensures Text(chunks) == Concat(chunks) <==> Without(Concat(chunks), NUL)
  {
    if chunks != [] {
      TextIsStream(chunks[1..]);
      var c, text, stream := CString(chunks[0]), Text(chunks[1..]), Concat(chunks[1..]);
      CStringSize(chunks[0]);
      assert Text(chunks) == c + text && Concat(chunks) == chunks[0] + stream;
      if |c| == |chunks[0]| {
        assert c == chunks[0];
        assert (c + text)[|c|..] == text && (chunks[0] + stream)[|c|..] == stream;
        WithoutConcat(chunks[0], stream);
      } else {
        WithoutConcat(chunks[0], stream);
        assert |c + text| < |chunks[0] + stream|;
      }
    }
  }

  lemma {:induction false} CStringSize(s: string)
    ensures |CString(s)| == |s| <==> Without(s, NUL)
  {
    if s != "" && s[0] != NUL {
      CStringSize(s[1..]);
    }
  }

  lemma WithoutConcat(s: string, t: string)
    ensures Without(s + t, NUL) <==> Without(s, NUL) && Without(t, NUL)
  {
    assert forall i :: 0 <= i < |s| ==> (s + t)[i] == s[i];
    assert forall i :: 0 <= i < |t| ==> (s + t)[|s| + i] == t[i];
  }

  // ----- when the cuts matter

  function Newlines(s: string): nat {
    if s == "" then 0 else (if s[0] == NEWLINE then 1 else 0) + Newlines(s[1..])
  }

  lemma {:induction false} NewlinesConcat(s: string, t: string)
    ensures Newlines(s + t) == Newlines(s) + Newlines(t)
  {
    if s == "" {
      assert s + t == t;
    } else {
      NewlinesConcat(s[1..], t);
      assert (s + t)[0] == s[0] && (s + t)[1..] == s[1..] + t;
    }
  }

  lemma {:induction false} NoNewlines(s: string)
    requires Without(s, NEWLINE)
    ensures Newlines(s) == 0
  {
    if s != "" {
      NoNewlines(s[1..]);
    }
  }

  lemma LineIsNewline(s: string)
    ensures SplitLine(s).None? ==> Newlines(s) == 0
    ensures SplitLine(s).Some? ==> Newlines(s) == 1 + Newlines(SplitLine(s).value.1)
  {
    match SplitLine(s)
    case None => NoNewlines(s);
    case Some((head, tail)) =>
      NoNewlines(head);
      NewlinesConcat(head + [NEWLINE], tail);
      NewlinesConcat(head, [NEWLINE]);
      assert [NEWLINE][1..] == "";
      assert Newlines([NEWLINE]) == 1;
  }

  lemma IncompleteIffNewlines(s: string)
    ensures FirstTwoLines(s) == Incomplete <==> Newlines(s) < 2
  {
    LineIsNewline(s);
    if SplitLine(s).Some? {
      LineIsNewline(SplitLine(s).value.1);
    }
  }

  /** The conversion of chunks to C strings adds no newline. */
  lemma {:induction false} TextNewlines(chunks: seq<string>)
    ensures Newlines(Text(chunks)) <= Newlines(Concat(chunks))
  {
    if chunks != [] {
      TextNewlines(chunks[1..]);
      var c := CString(chunks[0]);
      NewlinesConcat(c, Text(chunks[1..]));
      NewlinesConcat(chunks[0], Concat(chunks[1..]));
      NewlinesConcat(c, chunks[0][|c|..]);
      assert c + chunks[0][|c|..] == chunks[0];
    }
  }

  /** What stands in front of the first NUL of the stream is kept, however it is cut. */
  lemma {:induction false} TextKeeps(chunks: seq<string>, front: string)
    requires front <= Concat(chunks) && Without(front, NUL)
    ensures front <= Text(chunks)
  {
    if chunks != [] {
      var c, stream := chunks[0], Concat(chunks[1..]);
      assert Concat(chunks) == c + stream;
      if |c| <= |front| {
        assert c == front[..|c|];
        assert front[|c|..] <= stream;
        TextKeeps(chunks[1..], front[|c|..]);
        assert front == c + front[|c|..];
      } else {
        assert front <= c;
        CStringKeeps(c, front);
      }
    }
  }

  lemma {:induction false} CStringKeeps(s: string, front: string)
    requires front <= s && Without(front, NUL)
    ensures front <= CString(s)
  {
    if front != "" {
      CStringKeeps(s[1..], front[1..]);
      assert front == [front[0]] + front[1..];
    }
  }

  /** Neither of the first two lines holds a NUL, or they are not both there. */
  predicate Harmless(stream: string) {
    match FirstTwoLines(stream)
    case Incomplete => true
    case Target(host, port) => Without(host, NUL) && Without(port, NUL)
  }

  lemma BothLines(s: string, host: string, port: string)
    requires FirstTwoLines(s) == Target(host, port)
    ensures host + [NEWLINE] + port + [NEWLINE] <= s
    ensures Without(host, NEWLINE) && Without(port, NEWLINE)
  {
    var rest := SplitLine(s).value.1;
    var end := SplitLine(rest).value.1;
    assert s == host + [NEWLINE] + (port + [NEWLINE] + end);
    assert s == host + [NEWLINE] + port + [NEWLINE] + end;
  }

  /** On a harmless stream every way to cut it leads to the target that the stream itself holds. */
  lemma EveryCut(chunks: seq<string>)
    requires Harmless(Concat(chunks))
    ensures FirstTwoLines(Text(chunks)) == FirstTwoLines(Concat(chunks))
  {
    match FirstTwoLines(Concat(chunks))
    case Incomplete =>
      TextNewlines(chunks);
      IncompleteIffNewlines(Concat(chunks));
      IncompleteIffNewlines(Text(chunks));
    case Target(host, port) =>
      var front := host + [NEWLINE] + port + [NEWLINE];
      BothLines(Concat(chunks), host, port);
      TextKeeps(chunks, front);
      assert Text(chunks) == front + Text(chunks)[|front|..];
      TwoLines(host, port, Text(chunks)[|front|..]);
  }

  /** So any two ways to cut a harmless stream lead to the same target ... */
  lemma CutsDoNotMatter(chunks: seq<string>, chunks': seq<string>)
    requires Concat(chunks) == Concat(chunks') && Harmless(Concat(chunks))
    ensures FirstTwoLines(Text(chunks)) == FirstTwoLines(Text(chunks'))
  {
    EveryCut(chunks);
    EveryCut(chunks');
  }

  /** The stream read character by character. */
  function Singles(s: string): (chunks: seq<string>)
    ensures |chunks| == |s| && forall i :: 0 <= i < |s| ==> chunks[i] == [s[i]]
  {
    seq(|s|, i requires 0 <= i < |s| => [s[i]])
  }

  lemma {:induction false} SinglesText(s: string)
    ensures Concat(Singles(s)) == s && Newlines(Text(Singles(s))) == Newlines(s)
  {
    if s != "" {
      SinglesText(s[1..]);
      assert Singles(s)[1..] == Singles(s[1..]);
      NewlinesConcat(CString([s[0]]), Text(Singles(s[1..])));
      assert [s[0]][1..] == "";
    }
  }

  /** Any other stream keeps the proxy waiting when it is read in one piece, and gives a target when it
      is read character by character. */
  lemma CutsThatMatter(s: string)
    requires !Harmless(s)
    ensures Concat([s]) == s && FirstTwoLines(Text([s])) == Incomplete
    ensures Concat(Singles(s)) == s && FirstTwoLines(Text(Singles(s))) != Incomplete
  {
    OneChunk(s);
    SinglesText(s);
    IncompleteIffNewlines(s);
    IncompleteIffNewlines(Text(Singles(s)));
    var Target(host, port) := FirstTwoLines(s);
    BothLines(s, host, port);
    StopsInside(s, host, port);
    IncompleteIffNewlines(CString(s));
  }

  lemma StopsInside(s: string, host: string, port: string)
    requires host + [NEWLINE] + port + [NEWLINE] <= s && !(Without(host, NUL) && Without(port, NUL))
    requires Without(host, NEWLINE) && Without(port, NEWLINE)
    ensures Newlines(CString(s)) < 2
  {
    var lines, c := host + [NEWLINE] + port, CString(s);
    CStringEnds(s);
    assert |c| <= |lines| by {
      if |c| > |lines| {
        assert forall i :: 0 <= i < |host| ==> c[i] == s[i] == host[i];
        assert forall i :: 0 <= i < |port| ==> c[|host| + 1 + i] == s[|host| + 1 + i] == port[i];
      }
    }
    assert lines == c + lines[|c|..];
    NewlinesConcat(c, lines[|c|..]);
    NewlinesConcat(host + [NEWLINE], port);
    NewlinesConcat(host, [NEWLINE]);
    NoNewlines(host);
    NoNewlines(port);
    assert [NEWLINE][1..] == "";
  }

  lemma {:induction false} CStringEnds(s: string)
    ensures Without(CString(s), NUL)
  {
    if s != "" && s[0] != NUL {
      CStringEnds(s[1..]);
    }
  }

  /** ... and this is exactly when they do: cutting the stream is harmless iff neither of the first two
      lines holds a NUL, or there are no two lines. */
  lemma CutsMatterExactly(stream: string)
    ensures (forall chunks, chunks' :: Concat(chunks) == stream && Concat(chunks') == stream ==>
               FirstTwoLines(Text(chunks)) == FirstTwoLines(Text(chunks')))
            <==> Harmless(stream)
  {
    if Harmless(stream) {
      forall chunks, chunks' | Concat(chunks) == stream && Concat(chunks') == stream
        ensures FirstTwoLines(Text(chunks)) == FirstTwoLines(Text(chunks'))
      {
        CutsDoNotMatter(chunks, chunks');
      }
    } else {
      CutsThatMatter(stream);
    }
  }

  /** The pieces can be what reads return: one to 1024 characters each. */
  ghost predicate AreReads(chunks: seq<string>) {
    forall i :: 0 <= i < |chunks| ==> 0 < |chunks[i]| <= 1024
  }

  /** For a stream that fits one read, the same holds when only such pieces are considered. */
  lemma ReadsMatterExactly(stream: string)
    requires |stream| <= 1024
    ensures (forall chunks, chunks' :: AreReads(chunks) && AreReads(chunks')
                                       && Concat(chunks) == stream && Concat(chunks') == stream ==>
               FirstTwoLines(Text(chunks)) == FirstTwoLines(Text(chunks')))
            <==> Harmless(stream)
  {
    if Harmless(stream) {
      CutsMatterExactly(stream);
    } else {
      CutsThatMatter(stream);
      assert AreReads(Singles(stream)) && AreReads([stream]);
    }
  }

  /** A stream with a NUL that keeps the proxy waiting when it is read in one piece ... */
  lemma NulInOneChunk()
    ensures Concat(["h\0x\n1\n"]) == "h\0x\n1\n"
    ensures FirstTwoLines(Text(["h\0x\n1\n"])) == Incomplete
  {
    var s := "h\0x\n1\n";
    OneChunk(s);
    StopsAtNul("h", "x\n1\n");
    assert "h" + [NUL] + "x\n1\n" == s;
    NoLine("h");
  }

  /** ... and gives a target when it is read in two. */
  lemma NulInTwoChunks()
    ensures Concat(["h\0", "x\n1\n"]) == "h\0x\n1\n"
    ensures FirstTwoLines(Text(["h\0", "x\n1\n"])) == Target("hx", "1")
  {
    var a, b := "h\0", "x\n1\n";
    TwoChunks(a, b);
    StopsAtNul("h", "");
    assert "h" + [NUL] + "" == a;
    CStringSize(b);
    TwoLines("hx", "1", "");
    assert "hx" + [NEWLINE] + "1" + [NEWLINE] + "" == "h" + b;
  }

  lemma StopsAtNul(s: string, t: string)
    requires |s| == 1 && s[0] != NUL
    ensures CString(s + [NUL] + t) == s
  {
    assert (s + [NUL] + t)[1..][0] == NUL;
  }

  lemma TwoLines(host: string, port: string, end: string)
    requires Without(host, NEWLINE) && Without(port, NEWLINE)
    ensures FirstTwoLines(host + [NEWLINE] + port + [NEWLINE] + end) == Target(host, port)
  {
    var text, rest := host + [NEWLINE] + port + [NEWLINE] + end, port + [NEWLINE] + end;
    assert text[..|host|] == host && text[|host| + 1..] == rest;
    SplitAt(text, |host|);
    assert rest[..|port|] == port;
    SplitAt(rest, |port|);
  }

  lemma TwoChunks(a: string, b: string)
    ensures Concat([a, b]) == a + b && Text([a, b]) == CString(a) + CString(b)
  {
    assert [a, b][1..] == [b];
    OneChunk(b);
  }
}
