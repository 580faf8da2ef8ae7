/** The string operations the queue document relies on: ECMAScript `trim`,
    `split` on one character, splitting on `/\r?\n/`, and the removal of
    line breaks and pipes from notes. */
module Text {
  import Seqs

  /** ECMAScript WhiteSpace and LineTerminator code points: exactly the
      characters `String.prototype.trim` removes. */
  predicate IsWhitespace(c: char)
  {
    || c == '\t' || c == '\n' || c == '\U{000B}' || c == '\U{000C}' || c == '\r'
    || c == ' ' || c == '\U{00A0}' || c == '\U{1680}'
    || ('\U{2000}' <= c <= '\U{200A}')
    || c == '\U{2028}' || c == '\U{2029}' || c == '\U{202F}' || c == '\U{205F}'
    || c == '\U{3000}' || c == '\U{FEFF}'
  }

  /** Neither end of `s` is whitespace: `trim` leaves `s` alone. */
  predicate Trimmed(s: string)
  {
    s == [] || (!IsWhitespace(s[0]) && !IsWhitespace(s[|s| - 1]))
  }

  predicate AllWhitespace(s: string)
  {
    forall i :: 0 <= i < |s| ==> IsWhitespace(s[i])
  }

  /** `s` without its leading whitespace. */
  function TrimStart(s: string): (r: string)
    ensures |r| <= |s| && r == s[|s| - |r|..]
    ensures AllWhitespace(s[..|s| - |r|])
    ensures r == [] || !IsWhitespace(r[0])
  {
    if |s| > 0 && IsWhitespace(s[0]) then
      var r := TrimStart(s[1..]);
      assert s[..|s| - |r|] == [s[0]] + s[1..][..|s| - 1 - |r|];
      AllWhitespaceConcat([s[0]], s[1..][..|s| - 1 - |r|]);
      r
    else s
  }

  /** `s` without its trailing whitespace. */
  function TrimEnd(s: string): (r: string)
    ensures |r| <= |s| && r == s[..|r|]
    ensures AllWhitespace(s[|r|..])
    ensures r == [] || !IsWhitespace(r[|r| - 1])
  {
    if |s| > 0 && IsWhitespace(s[|s| - 1]) then
      var r := TrimEnd(s[..|s| - 1]);
      assert s[|r|..] == s[..|s| - 1][|r|..] + [s[|s| - 1]];
      AllWhitespaceConcat(s[..|s| - 1][|r|..], [s[|s| - 1]]);
      r
    else s
  }

  /** `String.prototype.trim`: the unique trimmed middle of `s` whose
      surroundings are all whitespace. */
  function Trim(s: string): (r: string)
    ensures Trimmed(r)
    ensures exists a, b :: 0 <= a <= b <= |s| && r == s[a..b]
                           && AllWhitespace(s[..a]) && AllWhitespace(s[b..])
  {
    var t := TrimStart(s);
    var r := TrimEnd(t);
    TrimBetween(s, t, r);
    TrimmedBetween(t, r);
    r
  }

  /** A piece of `s` with whitespace on its left and on its right. */
  lemma TrimBetween(s: string, t: string, r: string)
    requires |t| <= |s| && t == s[|s| - |t|..] && AllWhitespace(s[..|s| - |t|])
    requires |r| <= |t| && r == t[..|r|] && AllWhitespace(t[|r|..])
    ensures exists a, b :: 0 <= a <= b <= |s| && r == s[a..b]
                           && AllWhitespace(s[..a]) && AllWhitespace(s[b..])
  {
    var a := |s| - |t|;
    assert r == s[a..a + |r|];
    assert s[a + |r|..] == t[|r|..];
  }

  /** The front of text without leading whitespace, cut before its
      trailing whitespace, is trimmed. */
  lemma TrimmedBetween(t: string, r: string)
    requires t == [] || !IsWhitespace(t[0])
    requires |r| <= |t| && r == t[..|r|]
    requires r == [] || !IsWhitespace(r[|r| - 1])
    ensures Trimmed(r)
  {
    if r != [] {
      assert r[0] == t[0];
    }
  }

  /** Text that starts with a character other than whitespace does not
      trim to nothing. */
  lemma TrimNonEmpty(s: string)
    requires |s| > 0 && !IsWhitespace(s[0])
    ensures Trim(s) != []
  {
    assert TrimStart(s) == s;
    var r := TrimEnd(s);
    assert s == s[..|r|] + s[|r|..];
  }

  /** Trimming a string whose ends are not whitespace changes nothing. */
  lemma TrimTrimmed(s: string)
    requires Trimmed(s)
    ensures Trim(s) == s
  {
    assert TrimStart(s) == s;
    assert TrimEnd(s) == s;
  }

  /** Trimming removes any whitespace padding around a trimmed string. */
  lemma TrimPadded(pre: string, s: string, post: string)
    requires AllWhitespace(pre) && AllWhitespace(post) && Trimmed(s)
    ensures Trim(pre + s + post) == s
  {
    if s == [] {
      assert pre + s + post == pre + post;
      AllWhitespaceConcat(pre, post);
      TrimStartSkip(pre + post, []);
      assert pre + post + [] == pre + post;
    } else {
      assert pre + s + post == pre + (s + post);
      TrimStartSkip(pre, s + post);
      TrimEndSkip(s, post);
    }
  }

  lemma AllWhitespaceConcat(a: string, b: string)
    requires AllWhitespace(a) && AllWhitespace(b)
    ensures AllWhitespace(a + b)
  {
    forall i | 0 <= i < |a + b|
      ensures IsWhitespace((a + b)[i])
    {
      if i >= |a| {
        assert (a + b)[i] == b[i - |a|];
      }
    }
  }

  /** Leading whitespace in front of text that starts otherwise is what
      `TrimStart` removes. */
  lemma {:induction false} TrimStartSkip(pre: string, rest: string)
    requires AllWhitespace(pre) && (rest == [] || !IsWhitespace(rest[0]))
    ensures TrimStart(pre + rest) == rest
    decreases |pre|
  {
    if pre == [] {
      assert pre + rest == rest;
    } else {
      assert (pre + rest)[1..] == pre[1..] + rest;
      assert AllWhitespace(pre[1..]) by {
        forall i | 0 <= i < |pre[1..]|
          ensures IsWhitespace(pre[1..][i])
        {
          assert pre[1..][i] == pre[i + 1];
        }
      }
      TrimStartSkip(pre[1..], rest);
    }
  }

  /** Trailing whitespace after text that ends otherwise is what
      `TrimEnd` removes. */
  lemma {:induction false} TrimEndSkip(s: string, post: string)
    requires AllWhitespace(post) && (s == [] || !IsWhitespace(s[|s| - 1]))
    ensures TrimEnd(s + post) == s
    decreases |post|
  {
    if post == [] {
      assert s + post == s;
    } else {
      var x := s + post;
      var shorter := post[..|post| - 1];
      assert x[|x| - 1] == post[|post| - 1];
      assert x[..|x| - 1] == s + shorter;
      assert AllWhitespace(shorter) by {
        forall i | 0 <= i < |shorter|
          ensures IsWhitespace(shorter[i])
        {
          assert shorter[i] == post[i];
        }
      }
      TrimEndSkip(s, shorter);
    }
  }

  /** Concatenates `parts` with `sep` between neighbours, as `Array.prototype.join`. */
  function Join(parts: seq<string>, sep: string): string
  {
    if |parts| == 0 then ""
    else if |parts| == 1 then parts[0]
    else parts[0] + sep + Join(parts[1..], sep)
  }

  /** Putting a first part in front of a join. */
  lemma JoinCons(a: string, parts: seq<string>, sep: string)
    requires |parts| >= 1
    ensures Join([a] + parts, sep) == a + sep + Join(parts, sep)
  {
    assert ([a] + parts)[1..] == parts;
  }

  /** Joining two non-empty lists is joining their joins. */
  lemma {:induction false} JoinAppend(a: seq<string>, b: seq<string>, sep: string)
    requires |a| >= 1 && |b| >= 1
    ensures Join(a + b, sep) == Join(a, sep) + sep + Join(b, sep)
  {
    if |a| == 1 {
      JoinCons(a[0], b, sep);
      assert a + b == [a[0]] + b;
    } else {
      JoinAppend(a[1..], b, sep);
      assert a + b == [a[0]] + (a[1..] + b);
      JoinCons(a[0], a[1..] + b, sep);
      JoinCons(a[0], a[1..], sep);
      assert a == [a[0]] + a[1..];
    }
  }

  /** A join of lines begins with the first line and ends with the last. */
  lemma {:induction false} JoinEnds(parts: seq<string>, sep: string)
    requires |parts| >= 1
    ensures var j := Join(parts, sep);
      && |j| >= |parts[0]| && j[..|parts[0]|] == parts[0]
      && |j| >= |parts[|parts| - 1]| && j[|j| - |parts[|parts| - 1]|..] == parts[|parts| - 1]
  {
    if |parts| > 1 {
      JoinEnds(parts[1..], sep);
      var j := Join(parts, sep);
      var rest := Join(parts[1..], sep);
      assert j == parts[0] + sep + rest;
      assert j[..|parts[0]|] == parts[0];
      assert parts[1..][|parts[1..]| - 1] == parts[|parts| - 1];
      assert j[|j| - |parts[|parts| - 1]|..] == rest[|rest| - |parts[|parts| - 1]|..];
    }
  }

  /** The first character of a join is that of its first line, and its
      last character that of its last line. */
  lemma JoinOuter(lines: seq<string>)
    requires |lines| >= 1 && |lines[0]| > 0 && |lines[|lines| - 1]| > 0
    ensures var j := Join(lines, "\n"); var last := lines[|lines| - 1];
      |j| > 0 && j[0] == lines[0][0] && j[|j| - 1] == last[|last| - 1]
  {
    var j := Join(lines, "\n");
    JoinEnds(lines, "\n");
    var last := lines[|lines| - 1];
    assert j[0] == j[..|lines[0]|][0];
    assert j[|j| - 1] == j[|j| - |last|..][|last| - 1];
  }

  /** Lines whose join starts with a character other than whitespace and
      ends with a non-empty line do not trim to nothing. */
  lemma JoinTrimNonEmpty(lines: seq<string>)
    requires |lines| >= 1 && |lines[0]| > 0 && |lines[|lines| - 1]| > 0
    requires !IsWhitespace(lines[0][0])
    ensures Trim(Join(lines, "\n")) != []
  {
    JoinOuter(lines);
    TrimNonEmpty(Join(lines, "\n"));
  }

  /** `String.prototype.split` on a one-character separator: the maximal
      separator-free pieces, which `Join` reassembles into `s`. */
  function Split(s: string, sep: char): (r: seq<string>)
    ensures |r| >= 1
    ensures forall i :: 0 <= i < |r| ==> sep !in r[i]
    ensures Join(r, [sep]) == s
  {
    if s == [] then [""]
    else
      var rest := Split(s[1..], sep);
      if s[0] == sep then
        JoinCons("", rest, [sep]);
        [""] + rest
      else
        var r := [[s[0]] + rest[0]] + rest[1..];
        assert Join(r, [sep]) == s by {
          if |rest| == 1 {
          } else {
            JoinCons([s[0]] + rest[0], rest[1..], [sep]);
            JoinCons(rest[0], rest[1..], [sep]);
            assert rest == [rest[0]] + rest[1..];
          }
        }
        r
  }

  /** Splitting a separator-free piece followed by a separator. */
  lemma {:induction false} SplitPiece(a: string, sep: char, b: string)
    requires sep !in a
    ensures Split(a + [sep] + b, sep) == [a] + Split(b, sep)
  {
    if a == [] {
      assert a + [sep] + b == [sep] + b;
      assert ([sep] + b)[1..] == b;
    } else {
      SplitPiece(a[1..], sep, b);
      assert (a + [sep] + b)[1..] == a[1..] + [sep] + b;
      assert ([a[1..]] + Split(b, sep))[0] == a[1..];
      assert [a[0]] + a[1..] == a;
    }
  }

  /** A separator-free string splits into itself alone. */
  lemma {:induction false} SplitWhole(a: string, sep: char)
    requires sep !in a
    ensures Split(a, sep) == [a]
  {
    if a != [] {
      SplitWhole(a[1..], sep);
      assert [a[0]] + a[1..] == a;
    }
  }

  /** Round trip: splitting the join of separator-free parts gives them back. */
  lemma {:induction false} SplitJoin(parts: seq<string>, sep: char)
    requires |parts| >= 1
    requires forall i :: 0 <= i < |parts| ==> sep !in parts[i]
    ensures Split(Join(parts, [sep]), sep) == parts
  {
    if |parts| == 1 {
      SplitWhole(parts[0], sep);
    } else {
      SplitJoin(parts[1..], sep);
      SplitPiece(parts[0], sep, Join(parts[1..], [sep]));
      assert parts == [parts[0]] + parts[1..];
    }
  }

  /** `line` without one trailing carriage return. */
  function DropCarriageReturn(line: string): string
  {
    if |line| > 0 && line[|line| - 1] == '\r' then line[..|line| - 1] else line
  }

  /** `s.split(/\r?\n/)`: pieces between line feeds, each but the last losing
      the carriage return that preceded its line feed. */
  function SplitLines(s: string): (r: seq<string>)
    ensures |r| >= 1
    ensures forall i :: 0 <= i < |r| ==> '\n' !in r[i]
  {
    var pieces := Split(s, '\n');
    seq(|pieces|, i requires 0 <= i < |pieces| =>
      if i < |pieces| - 1 then DropCarriageReturn(pieces[i]) else pieces[i])
  }

  /** Round trip: lines free of line breaks, joined with line feeds, split
      back into themselves. */
  lemma SplitLinesJoin(lines: seq<string>)
    requires |lines| >= 1
    requires forall i :: 0 <= i < |lines| ==> '\n' !in lines[i] && '\r' !in lines[i]
    ensures SplitLines(Join(lines, "\n")) == lines
  {
    assert "\n" == ['\n'];
    SplitJoin(lines, '\n');
    var pieces := Split(Join(lines, "\n"), '\n');
    assert pieces == lines;
    forall i | 0 <= i < |lines|
      ensures DropCarriageReturn(lines[i]) == lines[i]
    {
      if |lines[i]| > 0 {
        assert lines[i][|lines[i]| - 1] in lines[i];
      }
    }
  }

  /** The lines with a carriage return after each but the last: what
      joining with `"\r\n"` leaves between the line feeds. */
  function WithCarriageReturns(lines: seq<string>): (r: seq<string>)
    ensures |r| == |lines|
  {
    seq(|lines|, i requires 0 <= i < |lines| => if i < |lines| - 1 then lines[i] + "\r" else lines[i])
  }

  /** Joining with `"\r\n"` is joining, with line feeds, the lines given
      their carriage returns. */
  lemma {:induction false} JoinCrLf(lines: seq<string>)
    ensures Join(lines, "\r\n") == Join(WithCarriageReturns(lines), "\n")
    decreases |lines|
  {
    if |lines| >= 2 {
      var crs := WithCarriageReturns(lines);
      JoinCrLf(lines[1..]);
      assert crs[1..] == WithCarriageReturns(lines[1..]);
      assert crs[0] + "\n" == lines[0] + "\r\n";
    }
  }

  /** Round trip for Windows line ends, the case `/\r?\n/` is written for:
      lines free of line breaks, joined with `"\r\n"`, split back into
      themselves. */
  lemma SplitLinesCrLf(lines: seq<string>)
    requires |lines| >= 1
    requires forall i :: 0 <= i < |lines| ==> '\n' !in lines[i] && '\r' !in lines[i]
    ensures SplitLines(Join(lines, "\r\n")) == lines
  {
    var crs := WithCarriageReturns(lines);
    JoinCrLf(lines);
    CarriageReturnsFree(lines);
    assert "\n" == ['\n'];
    SplitJoin(crs, '\n');
    CarriageReturnsDropped(lines);
  }

  /** The lines given their carriage returns still hold no line feed. */
  lemma CarriageReturnsFree(lines: seq<string>)
    requires forall i :: 0 <= i < |lines| ==> '\n' !in lines[i]
    ensures forall i :: 0 <= i < |lines| ==> '\n' !in WithCarriageReturns(lines)[i]
  {
    forall i | 0 <= i < |lines|
      ensures '\n' !in WithCarriageReturns(lines)[i]
    {
      if i < |lines| - 1 {
        assert WithCarriageReturns(lines)[i] == lines[i] + "\r";
      }
    }
  }

  /** Dropping the carriage return each piece but the last ends with gives
      back the lines. */
  lemma CarriageReturnsDropped(lines: seq<string>)
    requires |lines| >= 1
    ensures var crs := WithCarriageReturns(lines);
      forall i :: 0 <= i < |lines| - 1 ==> DropCarriageReturn(crs[i]) == lines[i]
  {
    var crs := WithCarriageReturns(lines);
    forall i | 0 <= i < |lines| - 1
      ensures DropCarriageReturn(crs[i]) == lines[i]
    {
      assert crs[i] == lines[i] + "\r";
      assert crs[i][..|crs[i]| - 1] == lines[i];
    }
  }

  /** Line feed, carriage return or pipe: what notes may not contain. */
  predicate IsBreakOrPipe(c: char)
  {
    c == '\r' || c == '\n' || c == '|'
  }

  /** `notes.replace(/(\r\n|\n|\r|\|)/gm, "")`: every line break and pipe removed. */
  function StripBreaksAndPipes(s: string): (r: string)
    ensures '\r' !in r && '\n' !in r && '|' !in r
    ensures |r| <= |s|
    ensures forall c :: multiset(r)[c] == if IsBreakOrPipe(c) then 0 else multiset(s)[c]
  {
    var r := Seqs.Filter(c => !IsBreakOrPipe(c), s);
    forall c
      ensures multiset(r)[c] == if IsBreakOrPipe(c) then 0 else multiset(s)[c]
    {
      Seqs.FilterCount(c => !IsBreakOrPipe(c), s, c);
    }
    r
  }

  /** Notes without line breaks or pipes pass through unchanged, so the
      stripping is idempotent. */
  lemma StripClean(s: string)
    ensures '\r' !in s && '\n' !in s && '|' !in s ==> StripBreaksAndPipes(s) == s
  {
    if '\r' !in s && '\n' !in s && '|' !in s {
      Seqs.FilterAll(c => !IsBreakOrPipe(c), s);
    }
  }

  /** Stripping works piece by piece, so the characters kept stay in
      their order. */
  lemma StripConcat(a: string, b: string)
    ensures StripBreaksAndPipes(a + b) == StripBreaksAndPipes(a) + StripBreaksAndPipes(b)
  {
    Seqs.FilterConcat(c => !IsBreakOrPipe(c), a, b);
  }

  /** A single character is kept exactly when it is neither a line break
      nor a pipe; with `StripConcat` this determines the stripping. */
  lemma StripOne(c: char)
    ensures StripBreaksAndPipes([c]) == if IsBreakOrPipe(c) then [] else [c]
  {
    assert [c][1..] == [];
  }

  /** Stripping twice is stripping once. */
  lemma StripIdempotent(s: string)
    ensures StripBreaksAndPipes(StripBreaksAndPipes(s)) == StripBreaksAndPipes(s)
  {
    StripClean(StripBreaksAndPipes(s));
  }

  /** Stripping keeps exactly the characters that are neither line breaks nor pipes. */
  lemma StripKeeps(s: string, c: char)
    ensures c in StripBreaksAndPipes(s) <==> c in s && !IsBreakOrPipe(c)
  {
    Seqs.FilterMembers(c => !IsBreakOrPipe(c), s, c);
  }
}
