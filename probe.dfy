/// The size probe of the acceptor (src/pserver.c, lines 228-270): the first
/// line of the peeked bytes, its three whitespace-separated words (the
/// request line of section 3 of RFC 9112: method, request-target, version),
/// the local path the target names, and the cost derived from `stat`.
module Probe {
  import opened Requests

  /// Size of the peek buffer (`MAXBUF`).
  const MaxBuf: nat := 8192

  /// At most `limit` characters of `s`, up to and excluding the first newline.
  function LineWithin(s: seq<char>, limit: nat): (line: seq<char>)
    ensures |line| <= limit && |line| <= |s|
    ensures line == s[..|line|]
    ensures '\n' !in line
    ensures |line| == limit || |line| == |s| || s[|line|] == '\n'
    decreases limit
  {
    if limit == 0 || s == [] || s[0] == '\n' then []
    else [s[0]] + LineWithin(s[1..], limit - 1)
  }

  /// The first line of the peeked bytes: it stops at the first newline, at
  /// the end of the data, or when the line buffer (one slot kept for the
  /// terminating NUL) is full, whichever comes first.
  function FirstLine(peek: seq<char>): (line: seq<char>)
  {
    LineWithin(peek, MaxBuf - 1)
  }

  /// The three stopping conditions determine the line: any prefix that
  /// meets them is the one `LineWithin` gives.
  lemma LineWithinUnique(s: seq<char>, limit: nat, r: seq<char>)
    requires |r| <= limit && |r| <= |s| && r == s[..|r|] && '\n' !in r
    requires |r| == limit || |r| == |s| || s[|r|] == '\n'
    ensures r == LineWithin(s, limit)
  {
  }

  /// The copy loop of the acceptor: byte by byte into the line buffer.
  method CopyFirstLine(peek: seq<char>) returns (line: seq<char>)
    ensures line == FirstLine(peek)
  {
    line := [];
    var i := 0;
    while i < |peek| && i < MaxBuf - 1 && peek[i] != '\n'
      invariant i <= |peek| && i <= MaxBuf - 1
      invariant line == peek[..i]
      invariant '\n' !in line
    {
      line := line + [peek[i]];
      i := i + 1;
    }
    LineWithinUnique(peek, MaxBuf - 1, line);
  }

  /// The part of `s` before the first `c`, all of `s` when there is none
  /// (`strchr` followed by cutting the string there).
  function BeforeChar(s: seq<char>, c: char): (r: seq<char>)
    ensures |r| <= |s| && r == s[..|r|] && c !in r
    ensures |r| == |s| || s[|r|] == c
  {
    if s == [] || s[0] == c then []
    else [s[0]] + BeforeChar(s[1..], c)
  }

  /// Any prefix that stops exactly at the first `c` (or at the end) is the
  /// one `BeforeChar` gives.
  lemma BeforeCharUnique(s: seq<char>, c: char, r: seq<char>)
    requires |r| <= |s| && r == s[..|r|] && c !in r
    requires |r| == |s| || s[|r|] == c
    ensures r == BeforeChar(s, c)
  {
  }

  /// The line as the C library sees it: up to its first NUL.
  function CString(line: seq<char>): seq<char>
  {
    BeforeChar(line, '\0')
  }

  /// `isspace` in the C locale: space, tab, newline, vertical tab, form
  /// feed and carriage return.
  predicate IsSpace(c: char)
  {
    c == ' ' || ('\t' <= c <= '\r')
  }

  predicate NoSpace(w: seq<char>)
  {
    forall i :: 0 <= i < |w| ==> !IsSpace(w[i])
  }

  /// What one `%s` conversion can read: a non-empty run without spaces.
  predicate IsWord(w: seq<char>)
  {
    w != [] && NoSpace(w)
  }

  /// Length of the run of non-space characters `s` starts with.
  function TokenLength(s: seq<char>): (k: nat)
    ensures k <= |s| && NoSpace(s[..k])
    ensures k == |s| || IsSpace(s[k])
  {
    if s == [] || IsSpace(s[0]) then 0
    else 1 + TokenLength(s[1..])
  }

  /// The maximal runs of non-space characters, in order: what successive
  /// `%s` conversions of `sscanf` read.
  function Words(s: seq<char>): (ws: seq<seq<char>>)
    ensures forall w :: w in ws ==> IsWord(w)
    decreases |s|
  {
    if s == [] then []
    else if IsSpace(s[0]) then Words(s[1..])
    else
      var k := TokenLength(s);
      [s[..k]] + Words(s[k..])
  }

  lemma {:induction false} TokenLengthAfterWord(w: seq<char>, rest: seq<char>)
    requires NoSpace(w)
    requires rest == [] || IsSpace(rest[0])
    ensures TokenLength(w + rest) == |w|
    decreases |w|
  {
    if w != [] {
      assert (w + rest)[1..] == w[1..] + rest;
      TokenLengthAfterWord(w[1..], rest);
    }
  }

  lemma WordsAfterWord(w: seq<char>, rest: seq<char>)
    requires IsWord(w)
    requires rest == [] || IsSpace(rest[0])
    ensures Words(w + rest) == [w] + Words(rest)
  {
    var s := w + rest;
    var k := TokenLength(s);
    TokenLengthAfterWord(w, rest);
    assert s[..k] == w && s[k..] == rest;
  }

  /// A run of whitespace only (possibly empty).
  predicate AllSpace(g: seq<char>)
  {
    forall i :: 0 <= i < |g| ==> IsSpace(g[i])
  }

  /// How a line is laid out around its words: before each word a run of
  /// whitespace (possibly empty before the first, non-empty between two
  /// words), and a whitespace run after the last.
  ghost predicate Layout(ws: seq<seq<char>>, gaps: seq<seq<char>>, trail: seq<char>)
  {
    && |gaps| == |ws|
    && (forall w :: w in ws ==> IsWord(w))
    && (forall i :: 0 <= i < |gaps| ==> AllSpace(gaps[i]))
    && (forall i :: 0 < i < |gaps| ==> gaps[i] != [])
    && AllSpace(trail)
  }

  /// The text of a layout: `gaps[0] + ws[0] + gaps[1] + ws[1] + ... + trail`.
  function Spread(ws: seq<seq<char>>, gaps: seq<seq<char>>, trail: seq<char>): seq<char>
    requires |gaps| == |ws|
    decreases |ws|
  {
    if ws == [] then trail
    else gaps[0] + ws[0] + Spread(ws[1..], gaps[1..], trail)
  }

  lemma AllSpaceTail(g: seq<char>)
    requires AllSpace(g) && g != []
    ensures IsSpace(g[0]) && AllSpace(g[1..])
  {
    assert forall i :: 0 <= i < |g| - 1 ==> g[1..][i] == g[i + 1];
  }

  lemma {:induction false} WordsOfSpaces(g: seq<char>)
    requires AllSpace(g)
    ensures Words(g) == []
    decreases |g|
  {
    if g != [] {
      AllSpaceTail(g);
      WordsOfSpaces(g[1..]);
    }
  }

  lemma {:induction false} WordsSkipSpaces(g: seq<char>, x: seq<char>)
    requires AllSpace(g)
    ensures Words(g + x) == Words(x)
    decreases |g|
  {
    if g != [] {
      AllSpaceTail(g);
      assert (g + x)[0] == g[0];
      assert (g + x)[1..] == g[1..] + x;
      WordsSkipSpaces(g[1..], x);
    } else {
      assert g + x == x;
    }
  }

  /// Splitting a laid-out line gives back its words, whatever whitespace
  /// (spaces, tabs, a carriage return) surrounds them.
  lemma {:induction false} WordsOfSpread(ws: seq<seq<char>>, gaps: seq<seq<char>>, trail: seq<char>)
    requires Layout(ws, gaps, trail)
    ensures Words(Spread(ws, gaps, trail)) == ws
    decreases |ws|
  {
    if ws == [] {
      WordsOfSpaces(trail);
    } else {
      assert forall w :: w in ws[1..] ==> w in ws;
      assert Layout(ws[1..], gaps[1..], trail);
      var rest := Spread(ws[1..], gaps[1..], trail);
      WordsOfSpread(ws[1..], gaps[1..], trail);
      assert rest == [] || IsSpace(rest[0]) by {
        if |ws| > 1 {
          assert gaps[1] != [] && AllSpace(gaps[1]);
          assert rest == gaps[1] + (ws[1] + Spread(ws[2..], gaps[2..], trail));
        }
      }
      assert ws[0] in ws;
      WordsAfterWord(ws[0], rest);
      assert Spread(ws, gaps, trail) == gaps[0] + (ws[0] + rest);
      WordsSkipSpaces(gaps[0], ws[0] + rest);
      assert ws == [ws[0]] + ws[1..];
    }
  }

  /// A layout with no whitespace before its first word starts with that
  /// word's first character.
  lemma SpreadStartsWithWord(ws: seq<seq<char>>, gaps: seq<seq<char>>, trail: seq<char>)
    requires Layout(ws, gaps, trail) && ws != [] && gaps[0] == []
    ensures Spread(ws, gaps, trail) != [] && !IsSpace(Spread(ws, gaps, trail)[0])
  {
    assert ws[0] in ws;
    var rest := Spread(ws[1..], gaps[1..], trail);
    assert Spread(ws, gaps, trail) == [] + ws[0] + rest;
    assert ([] + ws[0] + rest)[0] == ws[0][0];
  }

  /// A whitespace character in front of a layout with words joins its
  /// first gap.
  lemma LayoutConsSpace(c: char, ws: seq<seq<char>>, gaps: seq<seq<char>>, trail: seq<char>)
    requires IsSpace(c) && Layout(ws, gaps, trail) && ws != []
    ensures Layout(ws, gaps[0 := [c] + gaps[0]], trail)
    ensures Spread(ws, gaps[0 := [c] + gaps[0]], trail) == [c] + Spread(ws, gaps, trail)
  {
    var gaps' := gaps[0 := [c] + gaps[0]];
    assert AllSpace(gaps'[0]);
    assert forall i :: 0 < i < |gaps'| ==> gaps'[i] == gaps[i];
    assert gaps'[1..] == gaps[1..];
    var rest := Spread(ws[1..], gaps[1..], trail);
    assert Spread(ws, gaps', trail) == ([c] + gaps[0]) + ws[0] + rest;
    assert Spread(ws, gaps, trail) == gaps[0] + ws[0] + rest;
    assert ([c] + gaps[0]) + ws[0] + rest == [c] + (gaps[0] + ws[0] + rest);
  }

  /// A word in front of a layout that starts with whitespace (or is empty)
  /// becomes its first word.
  lemma LayoutConsWord(w: seq<char>, ws: seq<seq<char>>, gaps: seq<seq<char>>, trail: seq<char>)
    requires IsWord(w) && Layout(ws, gaps, trail)
    requires Spread(ws, gaps, trail) == [] || IsSpace(Spread(ws, gaps, trail)[0])
    ensures Layout([w] + ws, [[]] + gaps, trail)
    ensures Spread([w] + ws, [[]] + gaps, trail) == w + Spread(ws, gaps, trail)
  {
    if ws != [] && gaps[0] == [] {
      SpreadStartsWithWord(ws, gaps, trail);
    }
    var gaps' := [[]] + gaps;
    assert forall i :: 0 < i < |gaps'| ==> gaps'[i] == gaps[i - 1];
    assert forall v :: v in [w] + ws ==> v == w || v in ws;
    assert ([w] + ws)[1..] == ws && gaps'[1..] == gaps;
  }

  /// Every line is a layout of its own words: `Words` loses only whitespace.
  lemma {:induction false} WordsLayout(s: seq<char>)
    ensures exists gaps, trail :: Layout(Words(s), gaps, trail) && Spread(Words(s), gaps, trail) == s
    decreases |s|
  {
    var ws := Words(s);
    if s == [] {
      assert Layout(ws, [], []) && Spread(ws, [], []) == s;
    } else if IsSpace(s[0]) {
      WordsLayout(s[1..]);
      var g, t :| Layout(ws, g, t) && Spread(ws, g, t) == s[1..];
      assert [s[0]] + s[1..] == s;
      if ws == [] {
        assert AllSpace([s[0]] + t);
        assert Layout(ws, [], [s[0]] + t) && Spread(ws, [], [s[0]] + t) == s;
      } else {
        LayoutConsSpace(s[0], ws, g, t);
        var g' := g[0 := [s[0]] + g[0]];
        assert Layout(ws, g', t) && Spread(ws, g', t) == s;
      }
    } else {
      var k := TokenLength(s);
      var tail := Words(s[k..]);
      assert ws == [s[..k]] + tail;
      WordsLayout(s[k..]);
      var g, t :| Layout(tail, g, t) && Spread(tail, g, t) == s[k..];
      LayoutConsWord(s[..k], tail, g, t);
      assert s[..k] + s[k..] == s;
      assert Layout(ws, [[]] + g, t) && Spread(ws, [[]] + g, t) == s;
    }
  }

  /// A request line: method, request-target and protocol version.
  datatype RequestLine = RequestLine(verb: seq<char>, uri: seq<char>, version: seq<char>)

  /// `sscanf(line, "%s %s %s", ...) == 3`: the line parses exactly when it
  /// holds at least three words, and then its first three are taken.
  function ParseRequestLine(line: seq<char>): (r: Option<RequestLine>)
    ensures r.Some? <==> |Words(line)| >= 3
    ensures r.Some? ==> r.value.uri == Words(line)[1]
    ensures r.Some? ==> r.value.verb != [] && r.value.uri != [] && r.value.version != []
  {
    var ws := Words(line);
    if |ws| >= 3 then
      assert ws[0] in ws && ws[1] in ws && ws[2] in ws;
      Some(RequestLine(ws[0], ws[1], ws[2]))
    else None
  }

  /// A line made of a method, a target, a version and possibly more words,
  /// however they are separated by whitespace, parses to the first three;
  /// words past the third are ignored.
  lemma ParseSpreadLine(verb: seq<char>, uri: seq<char>, version: seq<char>, extra: seq<seq<char>>,
                        gaps: seq<seq<char>>, trail: seq<char>)
    requires Layout([verb, uri, version] + extra, gaps, trail)
    ensures ParseRequestLine(Spread([verb, uri, version] + extra, gaps, trail)) == Some(RequestLine(verb, uri, version))
  {
    WordsOfSpread([verb, uri, version] + extra, gaps, trail);
  }

  /// A word holds no line feed, since a line feed is whitespace.
  lemma WordHasNoNewline(w: seq<char>)
    requires NoSpace(w)
    ensures '\n' !in w
  {
  }

  /// The request line `verb SP uri SP version CR` is a layout of its three
  /// words.
  lemma CrlfLineLayout(verb: seq<char>, uri: seq<char>, version: seq<char>)
    requires IsWord(verb) && IsWord(uri) && IsWord(version)
    ensures Layout([verb, uri, version] + [], ["", " ", " "], "\r")
    ensures Spread([verb, uri, version] + [], ["", " ", " "], "\r") == verb + " " + uri + " " + version + "\r"
  {
    var gaps: seq<seq<char>> := ["", " ", " "];
    assert AllSpace(gaps[1]) && AllSpace(gaps[2]) && AllSpace("\r");
    assert Spread([version], gaps[2..], "\r") == " " + version + "\r";
    assert Spread([uri, version], gaps[1..], "\r") == " " + uri + (" " + version + "\r");
    assert ([verb, uri, version] + [])[1..] == [uri, version];
  }

  /// An HTTP/1.1 request as clients send it, with CRLF line ends: the
  /// carriage return stays on the copied first line and is skipped as
  /// whitespace, so method, target and version come out intact.
  lemma CrlfRequestLine(verb: seq<char>, uri: seq<char>, version: seq<char>, headers: seq<char>)
    requires IsWord(verb) && IsWord(uri) && IsWord(version)
    requires '\0' !in verb + uri + version
    requires |verb| + |uri| + |version| + 3 < MaxBuf - 1
    ensures ParseRequestLine(CString(FirstLine(verb + " " + uri + " " + version + "\r\n" + headers)))
         == Some(RequestLine(verb, uri, version))
  {
    var line := verb + " " + uri + " " + version + "\r";
    var peek := verb + " " + uri + " " + version + "\r\n" + headers;
    assert peek == line + "\n" + headers;
    assert peek[..|line|] == line && peek[|line|] == '\n';
    WordHasNoNewline(verb);
    WordHasNoNewline(uri);
    WordHasNoNewline(version);
    assert '\n' !in line;
    LineWithinUnique(peek, MaxBuf - 1, line);
    assert '\0' !in verb && '\0' !in uri && '\0' !in version;
    assert '\0' !in line;
    BeforeCharUnique(line, '\0', line);
    CrlfLineLayout(verb, uri, version);
    ParseSpreadLine(verb, uri, version, [], ["", " ", " "], "\r");
  }

  /// `pat` occurs in `s` starting at index `i`.
  ghost predicate OccursAt(s: seq<char>, pat: seq<char>, i: int)
  {
    0 <= i && i + |pat| <= |s| && s[i..i + |pat|] == pat
  }

  /// `strstr(s, pat) != NULL`.
  function HasSubstring(s: seq<char>, pat: seq<char>): (r: bool)
    ensures r <==> exists i :: OccursAt(s, pat, i)
    decreases |s|
  {
    if |s| < |pat| then false
    else if s[..|pat|] == pat then
      assert OccursAt(s, pat, 0);
      true
    else
      var r := HasSubstring(s[1..], pat);
      assert r ==> exists i :: OccursAt(s, pat, i) by {
        if r {
          var i :| OccursAt(s[1..], pat, i);
          assert OccursAt(s, pat, i + 1);
        }
      }
      assert (exists i :: OccursAt(s, pat, i)) ==> r by {
        if exists i :: OccursAt(s, pat, i) {
          var i :| OccursAt(s, pat, i);
          assert OccursAt(s[1..], pat, i - 1);
        }
      }
      r
  }

  /// The marker that sends a target to the dynamic-content handler.
  function IsDynamic(uri: seq<char>): bool
  {
    HasSubstring(uri, "cgi")
  }

  const IndexFile: seq<char> := "index.html"

  /// The local file a request-target names: for static content `.` and the
  /// target, plus `index.html` for a directory; for dynamic content `.` and
  /// the target with its query (from the first `?`) cut off.
  function DerivePath(uri: seq<char>): (path: seq<char>)
    requires uri != []
    ensures |path| > 0 && path[0] == '.'
    ensures !IsDynamic(uri) ==> |path| >= |uri| + 1
    ensures IsDynamic(uri) ==> |path| <= |uri| + 1
    ensures !IsDynamic(uri) ==> path[1..|uri| + 1] == uri
    ensures !IsDynamic(uri) ==>
      if uri[|uri| - 1] == '/' then path[|uri| + 1..] == IndexFile else |path| == |uri| + 1
    ensures IsDynamic(uri) ==> path[1..] == uri[..|path| - 1] && '?' !in path
    ensures IsDynamic(uri) ==> |path| - 1 == |uri| || uri[|path| - 1] == '?'
  {
    if !IsDynamic(uri) then
      "." + uri + (if uri[|uri| - 1] == '/' then IndexFile else [])
    else
      "." + BeforeChar(uri, '?')
  }

  /// A dynamic target with a query string maps to the file named by the
  /// part before the `?`.
  lemma DynamicQueryDropped(script: seq<char>, query: seq<char>)
    requires HasSubstring(script, "cgi") && '?' !in script
    ensures DerivePath(script + "?" + query) == "." + script
  {
    var uri := script + "?" + query;
    var i :| OccursAt(script, "cgi", i);
    assert uri[i..i + 3] == script[i..i + 3];
    assert OccursAt(uri, "cgi", i);
    assert uri[..|script|] == script;
    BeforeCharUnique(uri, '?', script);
  }

  /// A static target is looked up as the file it names below the root, a
  /// directory target as the directory's `index.html`.
  lemma StaticTargetMapsToFile(uri: seq<char>)
    requires uri != [] && !HasSubstring(uri, "cgi")
    ensures uri[|uri| - 1] == '/' ==> DerivePath(uri) == "." + uri + IndexFile
    ensures uri[|uri| - 1] != '/' ==> DerivePath(uri) == "." + uri
  {
  }

  /// `stat` against a file system given as a map from path to size.
  function Stat(fs: map<seq<char>, nat>, path: seq<char>): Option<nat>
  {
    if path in fs then Some(fs[path]) else None
  }

  /// The conversion of a value to a 32-bit two's-complement `int`, as the
  /// usual C compilers perform it: reduction modulo 2^32.
  function ToInt32(x: int): (r: int)
    ensures -0x8000_0000 <= r <= IntMax
    ensures (r - x) % 0x1_0000_0000 == 0
    ensures -0x8000_0000 <= x <= IntMax ==> r == x
  {
    var m := x % 0x1_0000_0000;
    if m > IntMax then m - 0x1_0000_0000 else m
  }

  /// The cost as the acceptor computes it: the unknown-size sentinel when
  /// `stat` fails, otherwise the file size stored into an `int`.
  function StatCostAsWritten(st: Option<nat>): (cost: int)
    ensures st.None? ==> cost == IntMax
    ensures st.Some? && st.value <= IntMax ==> cost == st.value
    ensures -0x8000_0000 <= cost <= IntMax
  {
    match st
    case None => IntMax
    case Some(size) => ToInt32(size)
  }

  /// A file of 2 GiB gets a negative cost and is served ahead of a one-byte
  /// file that arrived before it, the opposite of smallest-file-first.
  lemma LargeFileOvertakesAsWritten()
    ensures StatCostAsWritten(Some(0x8000_0000)) < 0
    ensures Lt(SFF, Request(1, StatCostAsWritten(Some(0x8000_0000)), 1),
                    Request(0, StatCostAsWritten(Some(1)), 0))
    ensures StatCostAsWritten(Some(0x1_0000_0000 + 10)) == 10
  {
  }

  /// The cost with sizes beyond the `int` range saturated at the
  /// unknown-size sentinel.
  function StatCost(st: Option<nat>): (cost: int)
    ensures 0 <= cost <= IntMax
    ensures st.None? ==> cost == IntMax
    ensures st.Some? && st.value <= IntMax ==> cost == st.value
  {
    match st
    case None => IntMax
    case Some(size) => if size <= IntMax then size else IntMax
  }

  /// A larger file never gets a smaller cost, and a failed `stat` gets a
  /// cost no smaller than any file; below the `int` limit both cost rules agree.
  lemma StatCostMonotone(a: nat, b: nat)
    ensures a <= b ==> StatCost(Some(a)) <= StatCost(Some(b))
    ensures StatCost(Some(a)) <= StatCost(None)
    ensures a <= IntMax ==> StatCost(Some(a)) == StatCostAsWritten(Some(a))
  {
  }

  /// The probe of one connection: `None` when nothing was peeked or the
  /// first line is not a request line (the connection is then dropped),
  /// otherwise the cost of the file the target names.
  function ProbeCost(peek: seq<char>, fs: map<seq<char>, nat>): (r: Option<int>)
    ensures r.None? <==> peek == [] || |Words(CString(FirstLine(peek)))| < 3
    ensures r.Some? ==> 0 <= r.value <= IntMax
  {
    if peek == [] then None
    else
      match ParseRequestLine(CString(FirstLine(peek)))
      case None => None
      case Some(request) => Some(StatCost(Stat(fs, DerivePath(request.uri))))
  }

  /// The probe as the acceptor runs it.
  method MeasureCost(peek: seq<char>, fs: map<seq<char>, nat>) returns (cost: Option<int>)
    ensures cost == ProbeCost(peek, fs)
  {
    if |peek| == 0 {
      return None;
    }
    var line := CopyFirstLine(peek);
    var parsed := ParseRequestLine(CString(line));
    if parsed.None? {
      return None;
    }
    var path := DerivePath(parsed.value.uri);
    cost := Some(StatCost(Stat(fs, path)));
  }
}
