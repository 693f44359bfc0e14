/** The JavaScript string operations the track code leans on: white space as
    `\s` and `String.prototype.trim` see it, `split` on one character, `split`
    on the regular expression `/\s+/`, the `/^\s+/` match and `Array.join`. */
module Text {

  /** WhiteSpace and LineTerminator code points of ECMAScript: the class `\s`
      of a regular expression and what `trim` removes. */
  predicate IsSpace(c: char) {
    || c == ' ' || c == '\t' || c == '\n' || c == '\r' || c == '\U{B}' || c == '\U{C}'
    || c == '\U{A0}' || c == '\U{1680}' || ('\U{2000}' <= c <= '\U{200A}')
    || c == '\U{2028}' || c == '\U{2029}' || c == '\U{202F}' || c == '\U{205F}'
    || c == '\U{3000}' || c == '\U{FEFF}'
  }

  predicate AllSpace(s: string) {
    forall i :: 0 <= i < |s| ==> IsSpace(s[i])
  }

  predicate NoSpace(s: string) {
    forall i :: 0 <= i < |s| ==> !IsSpace(s[i])
  }

  /** What `s.match(/^\s+/)` finds, or "" where it finds nothing: the longest
      prefix of `s` made only of white space. */
  function LeadingSpace(s: string): (ws: string)
    ensures ws <= s && AllSpace(ws)
    ensures |ws| == |s| || !IsSpace(s[|ws|])
  {
    if s != [] && IsSpace(s[0]) then [s[0]] + LeadingSpace(s[1..]) else ""
  }

  /** `s` without its trailing white space. */
  function TrimEnd(s: string): (r: string)
    ensures r <= s && AllSpace(s[|r|..])
    ensures r == [] || !IsSpace(r[|r| - 1])
  {
    if s != [] && IsSpace(s[|s| - 1]) then
      var r := TrimEnd(s[..|s| - 1]);
      assert s[|r|..] == s[..|s| - 1][|r|..] + [s[|s| - 1]];
      r
    else s
  }

  /** `s.trim()`: the middle of `s` between its leading and its trailing white space. */
  function Trim(s: string): (r: string)
    ensures |LeadingSpace(s)| + |r| <= |s|
    ensures r == s[|LeadingSpace(s)|..|LeadingSpace(s)| + |r|]
    ensures AllSpace(s[|LeadingSpace(s)| + |r|..])
    ensures r == [] || (!IsSpace(r[0]) && !IsSpace(r[|r| - 1]))
  {
    var lead := |LeadingSpace(s)|;
    var r := TrimEnd(s[lead..]);
    assert s[lead + |r|..] == s[lead..][|r|..];
    r
  }

  /** `s.split(sep)` for a one-character separator: the pieces between the
      separators, empty ones included, so there is always at least one. */
  function Split(s: string, sep: char): (fields: seq<string>)
    ensures |fields| >= 1
    ensures forall k :: 0 <= k < |fields| ==> sep !in fields[k]
    ensures |fields| == 1 <==> sep !in s
  {
    if s == [] then [""]
    else
      var rest := Split(s[1..], sep);
      if s[0] == sep then [""] + rest
      else
        assert forall k :: 1 <= k < |rest| ==> ([[s[0]] + rest[0]] + rest[1..])[k] == rest[k];
        assert sep in s <==> sep in s[1..];
        [[s[0]] + rest[0]] + rest[1..]
  }

  /** `fields.join(sep)` for a one-character separator. */
  function Join(fields: seq<string>, sep: char): (s: string)
    ensures |fields| >= 1 ==> fields[0] <= s
  {
    if |fields| == 0 then ""
    else if |fields| == 1 then fields[0]
    else fields[0] + [sep] + Join(fields[1..], sep)
  }

  /** `s.split(/\s+/)`: the pieces between maximal runs of white space. Only
      the first and the last piece can be empty (when `s` starts or ends with
      white space), and no piece holds white space. */
  function SplitRuns(s: string): (tokens: seq<string>)
    ensures |tokens| >= 1
    ensures forall k :: 0 <= k < |tokens| ==> NoSpace(tokens[k])
    ensures forall k :: 0 < k < |tokens| - 1 ==> tokens[k] != ""
    ensures s != [] && !IsSpace(s[0]) ==> tokens[0] != ""
    decreases |s|
  {
    if s == [] then [""]
    else if IsSpace(s[0]) then
      var rest := SplitRuns(s[|LeadingSpace(s)|..]);
      SpaceShape(rest);
      [""] + rest
    else
      var rest := SplitRuns(s[1..]);
      ConsShape(s[0], rest);
      [[s[0]] + rest[0]] + rest[1..]
  }

  /** Pieces without white space, only the first and last of them empty. */
  ghost predicate RunShape(tokens: seq<string>) {
    && |tokens| >= 1
    && (forall k :: 0 <= k < |tokens| ==> NoSpace(tokens[k]))
    && (forall k :: 0 < k < |tokens| - 1 ==> tokens[k] != "")
  }

  /** An empty piece in front, for leading white space. */
  lemma SpaceShape(rest: seq<string>)
    requires RunShape(rest) && (|rest| == 1 || rest[0] != "")
    ensures RunShape([""] + rest)
  {
    var tokens := [""] + rest;
    assert forall k :: 1 <= k < |tokens| ==> tokens[k] == rest[k - 1];
  }

  /** A non-space character joins the first piece. */
  lemma ConsShape(c: char, rest: seq<string>)
    requires !IsSpace(c) && RunShape(rest)
    ensures RunShape([[c] + rest[0]] + rest[1..])
  {
    var tokens := [[c] + rest[0]] + rest[1..];
    assert forall k :: 1 <= k < |tokens| ==> tokens[k] == rest[k];
    forall i | 0 <= i < |tokens[0]| ensures !IsSpace(tokens[0][i]) {
      if i > 0 { assert tokens[0][i] == rest[0][i - 1]; }
    }
  }

  /** The white-space runs `split(/\s+/)` cuts at, in order: each one
      non-empty and all white space. */
  function Gaps(s: string): (gaps: seq<string>)
    ensures forall k :: 0 <= k < |gaps| ==> gaps[k] != "" && AllSpace(gaps[k])
    decreases |s|
  {
    if s == [] then []
    else if IsSpace(s[0]) then [LeadingSpace(s)] + Gaps(s[|LeadingSpace(s)|..])
    else Gaps(s[1..])
  }

  /** The pieces with a run between each two: `tokens[0] + gaps[0] +
      tokens[1] + ...`. */
  function Interleave(tokens: seq<string>, gaps: seq<string>): string
    requires |tokens| >= 1 && |gaps| == |tokens| - 1
  {
    if |tokens| == 1 then tokens[0]
    else tokens[0] + gaps[0] + Interleave(tokens[1..], gaps[1..])
  }

  lemma InterleaveCons(w: string, tokens: seq<string>, g: string, gaps: seq<string>)
    requires |tokens| >= 1 && |gaps| == |tokens| - 1
    ensures Interleave([w] + tokens, [g] + gaps) == w + g + Interleave(tokens, gaps)
  {
    assert ([w] + tokens)[1..] == tokens && ([g] + gaps)[1..] == gaps;
  }

  lemma InterleaveHead(c: char, tokens: seq<string>, gaps: seq<string>)
    requires |tokens| >= 1 && |gaps| == |tokens| - 1
    ensures Interleave([[c] + tokens[0]] + tokens[1..], gaps) == [c] + Interleave(tokens, gaps)
  {
    if |tokens| > 1 {
      var a, g, x := tokens[0], gaps[0], Interleave(tokens[1..], gaps[1..]);
      assert [a] + tokens[1..] == tokens && [g] + gaps[1..] == gaps;
      InterleaveCons([c] + a, tokens[1..], g, gaps[1..]);
      InterleaveCons(a, tokens[1..], g, gaps[1..]);
      assert ([c] + a) + g + x == [c] + (a + g + x);
    }
  }

  /** `split(/\s+/)` cuts the text at its maximal white-space runs and loses
      nothing else: the text is its pieces with one non-empty white-space
      run between each two. With the pieces free of white space and only the
      outer ones possibly empty (`SplitRuns`), the non-empty pieces are
      exactly the maximal non-space runs of the text, in order. */
  lemma {:induction false} SplitRunsInterleave(s: string)
    ensures |Gaps(s)| == |SplitRuns(s)| - 1
    ensures Interleave(SplitRuns(s), Gaps(s)) == s
    decreases |s|
  {
    if s != [] {
      if IsSpace(s[0]) {
        SplitRunsInterleave(s[|LeadingSpace(s)|..]);
        InterleaveSpace(s);
      } else {
        SplitRunsInterleave(s[1..]);
        InterleaveWord(s);
      }
    }
  }

  /** Leading white space is the first run, after an empty first piece. */
  lemma InterleaveSpace(s: string)
    requires s != [] && IsSpace(s[0])
    requires var t := s[|LeadingSpace(s)|..];
      |Gaps(t)| == |SplitRuns(t)| - 1 && Interleave(SplitRuns(t), Gaps(t)) == t
    ensures |Gaps(s)| == |SplitRuns(s)| - 1
    ensures Interleave(SplitRuns(s), Gaps(s)) == s
  {
    var lead := LeadingSpace(s);
    var t := s[|lead|..];
    assert SplitRuns(s) == [""] + SplitRuns(t);
    assert Gaps(s) == [lead] + Gaps(t);
    PrefixRest(lead, s);
    InterleaveFront(SplitRuns(t), Gaps(t), lead, t, SplitRuns(s), Gaps(s), s);
  }

  lemma InterleaveFront(tokens: seq<string>, gaps: seq<string>, lead: string, t: string,
                        tokens': seq<string>, gaps': seq<string>, s: string)
    requires |tokens| >= 1 && |gaps| == |tokens| - 1 && Interleave(tokens, gaps) == t
    requires tokens' == [""] + tokens && gaps' == [lead] + gaps && s == lead + t
    ensures |gaps'| == |tokens'| - 1 && Interleave(tokens', gaps') == s
  {
    InterleaveCons("", tokens, lead, gaps);
    assert "" + lead == lead;
  }

  lemma PrefixRest(a: string, s: string)
    requires a <= s
    ensures s == a + s[|a|..]
  {
  }

  /** A leading non-space character belongs to the first piece. */
  lemma InterleaveWord(s: string)
    requires s != [] && !IsSpace(s[0])
    requires |Gaps(s[1..])| == |SplitRuns(s[1..])| - 1 && Interleave(SplitRuns(s[1..]), Gaps(s[1..])) == s[1..]
    ensures |Gaps(s)| == |SplitRuns(s)| - 1
    ensures Interleave(SplitRuns(s), Gaps(s)) == s
  {
    var rest := SplitRuns(s[1..]);
    SplitRunsWordStep(s);
    assert s == [s[0]] + s[1..];
    InterleaveHeadAt(s[0], rest, Gaps(s[1..]), s[1..], SplitRuns(s), Gaps(s), s);
  }

  lemma SplitRunsWordStep(s: string)
    requires s != [] && !IsSpace(s[0])
    ensures SplitRuns(s) == [[s[0]] + SplitRuns(s[1..])[0]] + SplitRuns(s[1..])[1..]
    ensures Gaps(s) == Gaps(s[1..])
  {
  }

  lemma InterleaveHeadAt(c: char, tokens: seq<string>, gaps: seq<string>, t: string,
                         tokens': seq<string>, gaps': seq<string>, s: string)
    requires |tokens| >= 1 && |gaps| == |tokens| - 1 && Interleave(tokens, gaps) == t
    requires tokens' == [[c] + tokens[0]] + tokens[1..] && gaps' == gaps && s == [c] + t
    ensures |gaps'| == |tokens'| - 1 && Interleave(tokens', gaps') == s
  {
    InterleaveHead(c, tokens, gaps);
  }

  lemma {:induction false} SplitPrefix(w: string, t: string, sep: char)
    requires sep !in w
    ensures Split(w + t, sep) == [w + Split(t, sep)[0]] + Split(t, sep)[1..]
    decreases |w|
  {
    if w == [] {
      assert w + t == t;
      var f := Split(t, sep);
      assert w + f[0] == f[0];
      assert [f[0]] + f[1..] == f;
    } else {
      var f := Split(t, sep);
      var rest := Split(w[1..] + t, sep);
      assert (w + t)[1..] == w[1..] + t;
      assert (w + t)[0] == w[0] && w[0] != sep;
      SplitPrefix(w[1..], t, sep);
      assert rest[0] == w[1..] + f[0] && rest[1..] == f[1..];
      assert [w[0]] + (w[1..] + f[0]) == w + f[0];
    }
  }

  /** A join of two or more pieces: the first, the separator, the join of
      the rest. */
  lemma JoinCons(w: string, rest: seq<string>, sep: char)
    requires |rest| >= 1
    ensures Join([w] + rest, sep) == w + [sep] + Join(rest, sep)
  {
    assert ([w] + rest)[1..] == rest;
  }

  /** A character put in front of the first piece comes first in the join. */
  lemma JoinConsHead(c: char, rest: seq<string>, sep: char)
    requires |rest| >= 1
    ensures Join([[c] + rest[0]] + rest[1..], sep) == [c] + Join(rest, sep)
  {
    if |rest| >= 2 {
      JoinCons([c] + rest[0], rest[1..], sep);
      JoinCons(rest[0], rest[1..], sep);
      assert [rest[0]] + rest[1..] == rest;
    }
  }

  /** Joining the pieces of a split gives back the string. */
  lemma {:induction false} JoinSplit(s: string, sep: char)
    ensures Join(Split(s, sep), sep) == s
    decreases |s|
  {
    if s != [] {
      var rest := Split(s[1..], sep);
      JoinSplit(s[1..], sep);
      assert s == [s[0]] + s[1..];
      if s[0] == sep {
        assert Split(s, sep) == [""] + rest;
        JoinCons("", rest, sep);
      } else {
        assert Split(s, sep) == [[s[0]] + rest[0]] + rest[1..];
        JoinConsHead(s[0], rest, sep);
      }
    }
  }

  /** Splitting the join of separator-free pieces gives back the pieces. */
  lemma {:induction false} SplitJoin(fields: seq<string>, sep: char)
    requires |fields| >= 1
    requires forall k :: 0 <= k < |fields| ==> sep !in fields[k]
    ensures Split(Join(fields, sep), sep) == fields
    decreases |fields|
  {
    if |fields| == 1 {
      SplitPrefix(fields[0], "", sep);
      assert fields[0] + "" == fields[0];
    } else {
      var tail := Join(fields[1..], sep);
      SplitJoin(fields[1..], sep);
      assert Join(fields, sep) == fields[0] + ([sep] + tail);
      SplitPrefix(fields[0], [sep] + tail, sep);
      assert ([sep] + tail)[1..] == tail;
      assert Split([sep] + tail, sep) == [""] + fields[1..];
      assert fields[0] + "" == fields[0];
      assert [fields[0]] + fields[1..] == fields;
    }
  }

  /** Appending one more piece to a join adds the separator and the piece. */
  lemma {:induction false} JoinSnoc(fields: seq<string>, w: string, sep: char)
    ensures Join(fields + [w], sep) == if fields == [] then w else Join(fields, sep) + [sep] + w
    decreases |fields|
  {
    if |fields| == 0 {
      assert fields + [w] == [w];
    } else {
      var tail := fields[1..];
      assert fields + [w] == [fields[0]] + (tail + [w]);
      JoinCons(fields[0], tail + [w], sep);
      JoinSnoc(tail, w, sep);
      if |fields| >= 2 {
        assert fields == [fields[0]] + tail;
        JoinCons(fields[0], tail, sep);
      }
    }
  }

  /** A word starting with a non-space: its first character joins the first
      piece of the rest. */
  lemma SplitRunsCons(w: string, t: string)
    requires w != [] && !IsSpace(w[0])
    ensures SplitRuns(w + t) == [[w[0]] + SplitRuns(w[1..] + t)[0]] + SplitRuns(w[1..] + t)[1..]
  {
    assert (w + t)[1..] == w[1..] + t;
  }

  /** A word without white space in front joins the first piece. */
  lemma {:induction false} SplitRunsPrefix(w: string, t: string)
    requires NoSpace(w)
    ensures SplitRuns(w + t) == [w + SplitRuns(t)[0]] + SplitRuns(t)[1..]
    decreases |w|
  {
    if w == [] {
      var f := SplitRuns(t);
      assert w + t == t;
      assert w + f[0] == f[0];
      assert [f[0]] + f[1..] == f;
    } else {
      SplitRunsPrefix(w[1..], t);
      SplitRunsCons(w, t);
      PrependShift(w, SplitRuns(t), SplitRuns(w[1..] + t), SplitRuns(w + t));
    }
  }

  /** Pieces `x` whose first piece is `w[0]` in front of the first of `g`,
      where `g`'s first piece is the rest of `w` in front of the first of
      `f`: `x`'s first piece is `w` in front of `f`'s first. */
  lemma PrependShift(w: string, f: seq<string>, g: seq<string>, x: seq<string>)
    requires w != [] && |f| >= 1 && |g| >= 1
    requires g == [w[1..] + f[0]] + f[1..]
    requires x == [[w[0]] + g[0]] + g[1..]
    ensures x == [w + f[0]] + f[1..]
  {
    assert g[0] == w[1..] + f[0];
    assert g[1..] == f[1..];
    assert [w[0]] + (w[1..] + f[0]) == w + f[0];
  }

  /** White space followed by a non-space is exactly what `/^\s+/` matches. */
  lemma {:induction false} LeadingSpaceAppend(sp: string, t: string)
    requires AllSpace(sp)
    requires t == [] || !IsSpace(t[0])
    ensures LeadingSpace(sp + t) == sp
    decreases |sp|
  {
    if sp == [] {
      assert sp + t == t;
    } else {
      assert (sp + t)[1..] == sp[1..] + t;
      LeadingSpaceAppend(sp[1..], t);
      assert [sp[0]] + sp[1..] == sp;
    }
  }

  lemma SplitRunsSpace(sp: string, t: string)
    requires sp != [] && AllSpace(sp)
    requires t == [] || !IsSpace(t[0])
    ensures SplitRuns(sp + t) == [""] + SplitRuns(t)
  {
    LeadingSpaceAppend(sp, t);
    assert (sp + t)[|sp|..] == t;
  }

  /** A word, one space and then a non-space split into the word and the
      pieces of the rest. */
  lemma SplitRunsWord(w: string, u: string)
    requires NoSpace(w)
    requires u == [] || !IsSpace(u[0])
    ensures SplitRuns(w + ([' '] + u)) == [w] + SplitRuns(u)
  {
    SplitRunsSpace([' '], u);
    SplitRunsPrefix(w, [' '] + u);
    assert w + "" == w;
    assert ([""] + SplitRuns(u))[1..] == SplitRuns(u);
  }

  /** Splitting single-space-joined words followed by a white-space margin on
      `/\s+/` gives back the words, plus one empty piece for a non-empty margin. */
  lemma {:induction false} SplitRunsJoin(words: seq<string>, margin: string)
    requires |words| >= 1
    requires forall k :: 0 <= k < |words| ==> words[k] != "" && NoSpace(words[k])
    requires AllSpace(margin)
    ensures SplitRuns(Join(words, ' ') + margin) == words + (if margin == "" then [] else [""])
    decreases |words|
  {
    var w := words[0];
    var tailM: seq<string> := if margin == "" then [] else [""];
    if |words| == 1 {
      assert Join(words, ' ') == w && words + tailM == [w] + tailM;
      SplitRunsLast(w, margin);
    } else {
      var u := Join(words[1..], ' ') + margin;
      SplitRunsJoin(words[1..], margin);
      JoinFirst(words, margin);
      SplitRunsWord(w, u);
      ConsPieces(words, tailM, SplitRuns(Join(words, ' ') + margin), SplitRuns(u));
    }
  }

  /** Words joined with single spaces and followed by a margin: the first
      word, a space, and the rest, which starts with the second word. */
  lemma JoinFirst(words: seq<string>, margin: string)
    requires |words| >= 2 && words[1] != ""
    ensures Join(words, ' ') + margin == words[0] + ([' '] + (Join(words[1..], ' ') + margin))
    ensures (Join(words[1..], ' ') + margin)[0] == words[1][0]
  {
    assert words == [words[0]] + words[1..];
    JoinCons(words[0], words[1..], ' ');
  }

  /** The last word followed by the margin. */
  lemma SplitRunsLast(w: string, margin: string)
    requires NoSpace(w) && AllSpace(margin)
    ensures SplitRuns(w + margin) == [w] + (if margin == "" then [] else [""])
  {
    SplitRunsPrefix(w, margin);
    if margin == "" {
      PrependShift0(w, SplitRuns(margin), SplitRuns(w + margin), []);
    } else {
      SplitRunsSpace(margin, "");
      assert margin + "" == margin;
      PrependShift0(w, SplitRuns(margin), SplitRuns(w + margin), [""]);
    }
  }

  /** Pieces `x` whose first piece is `w` in front of the empty first piece
      of `f`. */
  lemma PrependShift0(w: string, f: seq<string>, x: seq<string>, tail: seq<string>)
    requires f == [""] + tail
    requires x == [w + f[0]] + f[1..]
    ensures x == [w] + tail
  {
    assert w + "" == w;
    assert f[1..] == tail;
  }

  /** The first word in front of the pieces of the rest. */
  lemma ConsPieces(words: seq<string>, tail: seq<string>, x: seq<string>, y: seq<string>)
    requires |words| >= 1
    requires x == [words[0]] + y && y == words[1..] + tail
    ensures x == words + tail
  {
    assert [words[0]] + (words[1..] + tail) == words + tail;
  }

  /** The coordinate text a track serialises to splits back into its words. */
  lemma SplitRunsFramed(words: seq<string>, margin: string)
    requires |words| >= 1
    requires forall k :: 0 <= k < |words| ==> words[k] != "" && NoSpace(words[k])
    requires AllSpace(margin)
    ensures SplitRuns(margin + Join(words, ' ') + margin)
         == if margin == "" then words else [""] + words + [""]
    ensures LeadingSpace(margin + Join(words, ' ') + margin) == margin
  {
    var body := Join(words, ' ') + margin;
    SplitRunsJoin(words, margin);
    assert words[0][0] == body[0];
    assert margin + Join(words, ' ') + margin == margin + body;
    if margin == "" {
      assert margin + body == body;
    } else {
      SplitRunsSpace(margin, body);
    }
    LeadingSpaceAppend(margin, body);
  }
}
