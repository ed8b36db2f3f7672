/** The Python 2 `str` operations the manifest builder and the page builder
    rely on: `split`, `join`, `replace`, `startswith`/`endswith`, `strip`,
    `int(...)` on a string, `str(...)` of a natural number and `readlines`. */
module Strings {
  import opened Wrappers

  // ---------------------------------------------------------------------
  // Character sets and substrings
  // ---------------------------------------------------------------------

  /** No character of `s` is in `banned`. */
  predicate Avoids(s: string, banned: set<char>)
  {
    forall k :: 0 <= k < |s| ==> s[k] !in banned
  }

  lemma AvoidsConcat(a: string, b: string, banned: set<char>)
    ensures Avoids(a + b, banned) <==> Avoids(a, banned) && Avoids(b, banned)
  {
    if Avoids(a, banned) && Avoids(b, banned) {
      forall k | 0 <= k < |a + b|
        ensures (a + b)[k] !in banned
      {
        if k >= |a| { assert (a + b)[k] == b[k - |a|]; }
      }
    }
    if Avoids(a + b, banned) {
      forall k | 0 <= k < |a|
        ensures a[k] !in banned
      {
        assert (a + b)[k] == a[k];
      }
      forall k | 0 <= k < |b|
        ensures b[k] !in banned
      {
        assert (a + b)[|a| + k] == b[k];
      }
    }
  }

  /** `sub` occurs in `s` starting at index `i`. */
  predicate MatchAt(s: string, sub: string, i: int)
  {
    0 <= i && i + |sub| <= |s| && s[i..i + |sub|] == sub
  }

  /** Python's `sub in s`. */
  predicate Occurs(s: string, sub: string)
  {
    exists i :: 0 <= i <= |s| && MatchAt(s, sub, i)
  }

  lemma OccursInMiddle(a: string, sub: string, b: string)
    ensures Occurs(a + sub + b, sub)
  {
    var s := a + sub + b;
    assert s[|a|..|a| + |sub|] == sub;
    assert MatchAt(s, sub, |a|);
  }

  predicate StartsWith(s: string, prefix: string)
  {
    |prefix| <= |s| && s[..|prefix|] == prefix
  }

  predicate EndsWith(s: string, suffix: string)
  {
    |suffix| <= |s| && s[|s| - |suffix|..] == suffix
  }

  // ---------------------------------------------------------------------
  // ''.join and sep.join
  // ---------------------------------------------------------------------

  /** `''.join(parts)`. */
  function Concat(parts: seq<string>): string
  {
    if |parts| == 0 then "" else parts[0] + Concat(parts[1..])
  }

  lemma {:induction false} ConcatAppend(a: seq<string>, b: seq<string>)
    ensures Concat(a + b) == Concat(a) + Concat(b)
  {
    if |a| == 0 {
      assert a + b == b;
    } else {
      assert (a + b)[1..] == a[1..] + b;
      ConcatAppend(a[1..], b);
    }
  }

  /** The text of the pieces around the `k`-th. */
  lemma {:induction false} ConcatAround(pieces: seq<string>, k: nat)
    requires k < |pieces|
    ensures Concat(pieces) == Concat(pieces[..k]) + pieces[k] + Concat(pieces[k + 1..])
  {
    var rest := pieces[k..];
    assert pieces == pieces[..k] + rest;
    ConcatAppend(pieces[..k], rest);
    assert rest[0] == pieces[k] && rest[1..] == pieces[k + 1..];
    assert Concat(rest) == pieces[k] + Concat(pieces[k + 1..]);
  }

  /** Every piece occurs in the concatenation. */
  lemma {:induction false} OccursPiece(pieces: seq<string>, k: nat)
    requires k < |pieces|
    ensures Occurs(Concat(pieces), pieces[k])
    ensures |Concat(pieces)| >= |pieces[k]|
  {
    ConcatAround(pieces, k);
    OccursInMiddle(Concat(pieces[..k]), pieces[k], Concat(pieces[k + 1..]));
  }

  /** An occurrence inside an occurrence is an occurrence. */
  lemma {:induction false} OccursTrans(s: string, t: string, u: string)
    requires Occurs(s, t) && Occurs(t, u)
    ensures Occurs(s, u)
  {
    var i :| 0 <= i <= |s| && MatchAt(s, t, i);
    var j :| 0 <= j <= |t| && MatchAt(t, u, j);
    forall d | 0 <= d < |u| ensures s[i + j + d] == u[d] {
      assert s[i..i + |t|][j + d] == s[i + j + d];
      assert t[j..j + |u|][d] == t[j + d];
    }
    assert MatchAt(s, u, i + j);
  }

  /** The concatenation starts with the first piece and ends with the last. */
  lemma {:induction false} ConcatEnds(pieces: seq<string>)
    requires |pieces| > 0
    ensures StartsWith(Concat(pieces), pieces[0])
    ensures EndsWith(Concat(pieces), pieces[|pieces| - 1])
  {
    var n := |pieces| - 1;
    ConcatAround(pieces, n);
    assert pieces[n + 1..] == [];
    var s := Concat(pieces);
    assert s == Concat(pieces[..n]) + pieces[n];
    assert s[|s| - |pieces[n]|..] == pieces[n];
  }

  /** Pieces between a header and a footer: the text starts with the
      header, ends with the footer and holds every piece. */
  lemma {:induction false} FramedPieces(head: string, pieces: seq<string>, foot: string)
    ensures StartsWith(Concat([head] + pieces + [foot]), head)
    ensures EndsWith(Concat([head] + pieces + [foot]), foot)
    ensures forall c :: 0 <= c < |pieces| ==> Occurs(Concat([head] + pieces + [foot]), pieces[c])
  {
    var all := [head] + pieces + [foot];
    ConcatEnds(all);
    forall c | 0 <= c < |pieces| ensures Occurs(Concat(all), pieces[c]) {
      assert all[c + 1] == pieces[c];
      OccursPiece(all, c + 1);
    }
  }

  /** `sep.join(parts)` for a one-character separator. */
  function Join(parts: seq<string>, sep: char): string
  {
    if |parts| == 0 then ""
    else if |parts| == 1 then parts[0]
    else parts[0] + [sep] + Join(parts[1..], sep)
  }

  /** Appending text after a join is the same as appending it to the last part. */
  lemma {:induction false} JoinExtendLast(parts: seq<string>, sep: char, t: string)
    requires |parts| >= 1
    ensures Join(parts, sep) + t == Join(parts[..|parts| - 1] + [parts[|parts| - 1] + t], sep)
  {
    var ext := parts[..|parts| - 1] + [parts[|parts| - 1] + t];
    if |parts| == 1 {
      assert ext == [parts[0] + t];
    } else {
      JoinExtendLast(parts[1..], sep, t);
      assert ext[1..] == parts[1..][..|parts[1..]| - 1] + [parts[1..][|parts[1..]| - 1] + t];
      assert ext[0] == parts[0];
    }
  }

  lemma {:induction false} JoinAvoids(parts: seq<string>, sep: char, banned: set<char>)
    requires sep !in banned
    requires forall i :: 0 <= i < |parts| ==> Avoids(parts[i], banned)
    ensures Avoids(Join(parts, sep), banned)
  {
    if |parts| >= 2 {
      JoinAvoids(parts[1..], sep, banned);
      AvoidsConcat(parts[0], [sep], banned);
      AvoidsConcat(parts[0] + [sep], Join(parts[1..], sep), banned);
    }
  }

  // ---------------------------------------------------------------------
  // str.split(sep)
  // ---------------------------------------------------------------------

  /** `s.split(sep)` for a one-character separator: always at least one part,
      empty parts kept. */
  function Split(s: string, sep: char): (parts: seq<string>)
    ensures |parts| >= 1
    decreases |s|
  {
    if |s| == 0 then [""]
    else
      var rest := Split(s[1..], sep);
      if s[0] == sep then [""] + rest
      else [[s[0]] + rest[0]] + rest[1..]
  }

  /** Joining the parts back with the separator restores the string. */
  lemma {:induction false} SplitThenJoin(s: string, sep: char)
    ensures Join(Split(s, sep), sep) == s
    decreases |s|
  {
    if |s| > 0 {
      var rest := Split(s[1..], sep);
      SplitThenJoin(s[1..], sep);
      if s[0] == sep {
        assert ([""] + rest)[1..] == rest;
        assert s == [s[0]] + s[1..];
      } else if |rest| == 1 {
        assert Split(s, sep) == [[s[0]] + rest[0]];
        assert s == [s[0]] + s[1..];
      } else {
        var parts := [[s[0]] + rest[0]] + rest[1..];
        assert parts[1..] == rest[1..];
        assert s == [s[0]] + s[1..];
      }
    }
  }

  /** No part of a split contains the separator, nor any character the
      string itself avoids. */
  lemma {:induction false} SplitPartsAvoid(s: string, sep: char, banned: set<char>)
    requires Avoids(s, banned)
    ensures forall i :: 0 <= i < |Split(s, sep)| ==> Avoids(Split(s, sep)[i], banned + {sep})
    decreases |s|
  {
    if |s| > 0 {
      var rest := Split(s[1..], sep);
      SplitPartsAvoid(s[1..], sep, banned);
      assert forall i :: 0 <= i < |rest| ==> Avoids(rest[i], banned + {sep});
    }
  }

  /** The parts of a split never contain the separator. */
  lemma SplitPartsNoSep(s: string, sep: char)
    ensures forall i :: 0 <= i < |Split(s, sep)| ==> sep !in Split(s, sep)[i]
  {
    SplitPartsAvoid(s, sep, {});
    var parts := Split(s, sep);
    forall i | 0 <= i < |parts| ensures sep !in parts[i] {
      assert Avoids(parts[i], {sep});
    }
  }

  /** Splitting a string whose leading piece `a` has no separator puts `a`
      in front of the first part of the rest. */
  lemma {:induction false} SplitPrefix(a: string, t: string, sep: char)
    requires sep !in a
    ensures Split(a + t, sep) == [a + Split(t, sep)[0]] + Split(t, sep)[1..]
    decreases |a|
  {
    if |a| > 0 {
      var p := Split(t, sep);
      assert sep !in a[1..] by {
        forall k | 0 <= k < |a[1..]| ensures a[1..][k] != sep { assert a[1..][k] == a[k + 1]; }
      }
      SplitPrefix(a[1..], t, sep);
      assert (a + t)[0] == a[0] && a[0] != sep;
      assert (a + t)[1..] == a[1..] + t;
      var rest := Split(a[1..] + t, sep);
      assert rest == [a[1..] + p[0]] + p[1..];
      assert Split(a + t, sep) == [[a[0]] + rest[0]] + rest[1..];
      assert [a[0]] + (a[1..] + p[0]) == a + p[0];
    } else {
      var p := Split(t, sep);
      assert a == "" && a + t == t;
      assert a + p[0] == p[0];
      assert p == [p[0]] + p[1..];
    }
  }

  /** One step of `Split`: a separator starts a new part, any other
      character extends the first part of the rest. */
  lemma SplitCons(c: char, t: string, sep: char)
    ensures Split([c] + t, sep) ==
      if c == sep then [""] + Split(t, sep) else [[c] + Split(t, sep)[0]] + Split(t, sep)[1..]
  {
    assert ([c] + t)[0] == c;
    assert ([c] + t)[1..] == t;
  }

  /** Joining separator-free parts and splitting again gives the parts back. */
  lemma {:induction false} JoinThenSplit(parts: seq<string>, sep: char)
    requires |parts| >= 1
    requires forall i :: 0 <= i < |parts| ==> sep !in parts[i]
    ensures Split(Join(parts, sep), sep) == parts
  {
    if |parts| == 1 {
      SplitPrefix(parts[0], "", sep);
      assert parts[0] + "" == parts[0];
      assert Split("", sep) == [""];
    } else {
      var tail := Join(parts[1..], sep);
      JoinThenSplit(parts[1..], sep);
      SplitAtSep(parts[0], tail, sep);
      assert Join(parts, sep) == parts[0] + [sep] + tail;
      assert parts == [parts[0]] + parts[1..];
    }
  }

  /** A separator after a separator-free `a` ends the first part at `a`. */
  lemma SplitAtSep(a: string, tail: string, sep: char)
    requires sep !in a
    ensures Split(a + [sep] + tail, sep) == [a] + Split(tail, sep)
  {
    var t := [sep] + tail;
    SplitCons(sep, tail, sep);
    SplitPrefix(a, t, sep);
    assert a + [sep] + tail == a + t;
    assert a + "" == a;
  }

  // ---------------------------------------------------------------------
  // str.replace(pat, rep)
  // ---------------------------------------------------------------------

  /** `s.replace(old, new)` for a non-empty `old`: non-overlapping
      occurrences, found from the left, are replaced. */
  function Replace(s: string, pat: string, rep: string): string
    requires |pat| > 0
    decreases |s|
  {
    if |s| < |pat| then s
    else if s[..|pat|] == pat then rep + Replace(s[|pat|..], pat, rep)
    else [s[0]] + Replace(s[1..], pat, rep)
  }

  /** Dropping the first character shifts every match one place left. */
  lemma MatchShift(s: string, pat: string, i: int)
    requires |s| > 0 && 0 <= i
    ensures MatchAt(s[1..], pat, i) <==> MatchAt(s, pat, i + 1)
  {
    if 0 <= i && i + |pat| <= |s[1..]| {
      assert s[1..][i..i + |pat|] == s[i + 1..i + 1 + |pat|];
    }
  }

  /** Without an occurrence of `pat`, `replace` changes nothing. */
  lemma {:induction false} ReplaceAbsent(s: string, pat: string, rep: string)
    requires |pat| > 0
    requires !Occurs(s, pat)
    ensures Replace(s, pat, rep) == s
    decreases |s|
  {
    if |s| >= |pat| {
      assert !MatchAt(s, pat, 0);
      forall i | 0 <= i <= |s[1..]|
        ensures !MatchAt(s[1..], pat, i)
      {
        MatchShift(s, pat, i);
      }
      ReplaceAbsent(s[1..], pat, rep);
      assert s == [s[0]] + s[1..];
    }
  }

  /** One step of `replace` past a position where `pat` does not start. */
  lemma ReplaceSkip(s: string, pat: string, rep: string)
    requires |pat| > 0 && |s| > 0 && !MatchAt(s, pat, 0)
    ensures Replace(s, pat, rep) == [s[0]] + Replace(s[1..], pat, rep)
  {
  }

  /** One step of `replace` at a position where `pat` starts. */
  lemma ReplaceHit(pat: string, rep: string, y: string)
    requires |pat| > 0
    ensures Replace(pat + y, pat, rep) == rep + Replace(y, pat, rep)
  {
    assert (pat + y)[..|pat|] == pat;
    assert (pat + y)[|pat|..] == y;
  }

  /** The first occurrence of `pat` is replaced by `rep`, the text before it
      is kept, and replacing continues after it. */
  lemma {:induction false} ReplaceFirst(x: string, pat: string, rep: string, y: string)
    requires |pat| > 0
    requires forall i :: 0 <= i < |x| ==> !MatchAt(x + pat + y, pat, i)
    ensures Replace(x + pat + y, pat, rep) == x + rep + Replace(y, pat, rep)
    decreases |x|
  {
    if |x| == 0 {
      assert x + pat + y == pat + y;
      ReplaceHit(pat, rep, y);
    } else {
      var s := x + pat + y;
      assert !MatchAt(s, pat, 0);
      ReplaceSkip(s, pat, rep);
      assert s[1..] == x[1..] + pat + y;
      forall i | 0 <= i < |x[1..]|
        ensures !MatchAt(x[1..] + pat + y, pat, i)
      {
        MatchShift(s, pat, i);
      }
      ReplaceFirst(x[1..], pat, rep, y);
      var tail := Replace(y, pat, rep);
      assert [s[0]] + (x[1..] + rep + tail) == x + rep + tail by {
        assert x == [x[0]] + x[1..];
      }
    }
  }

  /** A prefix free of `pat`'s first character cannot hold an occurrence. */
  lemma NoMatchInPrefix(x: string, pat: string, y: string)
    requires |pat| > 0
    requires pat[0] !in x
    ensures forall i :: 0 <= i < |x| ==> !MatchAt(x + pat + y, pat, i)
  {
    var s := x + pat + y;
    forall i | 0 <= i < |x|
      ensures !MatchAt(s, pat, i)
    {
      assert s[i] == x[i] != pat[0];
      if i + |pat| <= |s| {
        assert s[i..i + |pat|][0] != pat[0];
      }
    }
  }

  /** A string free of `pat`'s first character is left alone. */
  lemma NoFirstCharAbsent(s: string, pat: string)
    requires |pat| > 0
    requires pat[0] !in s
    ensures !Occurs(s, pat)
  {
    forall i | 0 <= i <= |s|
      ensures !MatchAt(s, pat, i)
    {
      if i + |pat| <= |s| {
        assert s[i..i + |pat|][0] == s[i] != pat[0];
      }
    }
  }

  /** `replace` introduces only characters of the string or of `rep`. */
  lemma {:induction false} ReplaceAvoids(s: string, pat: string, rep: string, banned: set<char>)
    requires |pat| > 0
    requires Avoids(s, banned) && Avoids(rep, banned)
    ensures Avoids(Replace(s, pat, rep), banned)
    decreases |s|
  {
    if |s| >= |pat| {
      if s[..|pat|] == pat {
        assert Avoids(s[|pat|..], banned) by {
          forall k | 0 <= k < |s[|pat|..]| ensures s[|pat|..][k] !in banned {
            assert s[|pat|..][k] == s[|pat| + k];
          }
        }
        ReplaceAvoids(s[|pat|..], pat, rep, banned);
        AvoidsConcat(rep, Replace(s[|pat|..], pat, rep), banned);
      } else {
        assert Avoids(s[1..], banned) by {
          forall k | 0 <= k < |s[1..]| ensures s[1..][k] !in banned {
            assert s[1..][k] == s[1 + k];
          }
        }
        ReplaceAvoids(s[1..], pat, rep, banned);
        AvoidsConcat([s[0]], Replace(s[1..], pat, rep), banned);
      }
    }
  }

  // ---------------------------------------------------------------------
  // str(n) and int(s)
  // ---------------------------------------------------------------------

  predicate IsDigit(c: char)
  {
    '0' <= c <= '9'
  }

  predicate AllDigits(s: string)
  {
    forall k :: 0 <= k < |s| ==> IsDigit(s[k])
  }

  function DigitChar(d: nat): (c: char)
    requires d < 10
    ensures IsDigit(c)
  {
    ('0' as int + d) as char
  }

  function DigitValue(c: char): nat
    requires IsDigit(c)
  {
    c as int - '0' as int
  }

  /** `str(n)` for a natural number: decimal, no sign, no leading zero. */
  function NatToString(n: nat): (s: string)
    ensures |s| >= 1 && AllDigits(s)
    decreases n
  {
    if n < 10 then [DigitChar(n)]
    else NatToString(n / 10) + [DigitChar(n % 10)]
  }

  /** Value of a non-empty run of decimal digits, most significant first. */
  function DigitsValue(s: string): nat
    requires AllDigits(s)
    decreases |s|
  {
    if |s| == 0 then 0
    else DigitsValue(s[..|s| - 1]) * 10 + DigitValue(s[|s| - 1])
  }

  lemma {:induction false} DigitsOfNat(n: nat)
    ensures DigitsValue(NatToString(n)) == n
    decreases n
  {
    var s := NatToString(n);
    if n >= 10 {
      DigitsOfNat(n / 10);
      assert s[..|s| - 1] == NatToString(n / 10);
    }
  }

  /** The characters Python 2's `str.strip()` removes. */
  predicate IsSpace(c: char)
  {
    c == ' ' || c == '\t' || c == '\n' || c == '\r' || c == 11 as char || c == 12 as char
  }

  function StripLeft(s: string): string
    decreases |s|
  {
    if |s| > 0 && IsSpace(s[0]) then StripLeft(s[1..]) else s
  }

  function StripRight(s: string): string
    decreases |s|
  {
    if |s| > 0 && IsSpace(s[|s| - 1]) then StripRight(s[..|s| - 1]) else s
  }

  /** `s.strip()`. */
  function Strip(s: string): string
  {
    StripRight(StripLeft(s))
  }

  /** `int(s)` on a string: surrounding white space, an optional sign and at
      least one decimal digit; anything else is the `ValueError` case. */
  function ParseInt(s: string): Option<int>
  {
    var t := Strip(s);
    if |t| > 0 && (t[0] == '+' || t[0] == '-') then
      var d := t[1..];
      if |d| > 0 && AllDigits(d) then
        var v: int := DigitsValue(d);
        Some(if t[0] == '-' then -v else v)
      else None
    else if |t| > 0 && AllDigits(t) then Some(DigitsValue(t))
    else None
  }

  /** `int(str(n)) == n`. */
  lemma ParseIntOfNat(n: nat)
    ensures ParseInt(NatToString(n)) == Some(n)
  {
    var s := NatToString(n);
    assert !IsSpace(s[0]) && !IsSpace(s[|s| - 1]);
    assert StripLeft(s) == s;
    assert StripRight(s) == s;
    DigitsOfNat(n);
  }

  /** White space before and after a text, in any amounts and independently
      on each side, does not change what `int(...)` reads. */
  lemma {:induction false} ParseIntIgnoresSpace(lpad: string, s: string, rpad: string)
    requires forall k :: 0 <= k < |lpad| ==> IsSpace(lpad[k])
    requires forall k :: 0 <= k < |rpad| ==> IsSpace(rpad[k])
    ensures ParseInt(lpad + s + rpad) == ParseInt(s)
  {
    assert lpad + s + rpad == lpad + (s + rpad);
    StripLeftPad(lpad, s + rpad);
    StripThenPad(s, rpad);
  }

  lemma {:induction false} StripLeftPad(pad: string, s: string)
    requires forall k :: 0 <= k < |pad| ==> IsSpace(pad[k])
    ensures StripLeft(pad + s) == StripLeft(s)
    decreases |pad|
  {
    if |pad| > 0 {
      assert (pad + s)[1..] == pad[1..] + s;
      StripLeftPad(pad[1..], s);
    } else {
      assert pad + s == s;
    }
  }

  lemma {:induction false} StripRightPad(s: string, pad: string)
    requires forall k :: 0 <= k < |pad| ==> IsSpace(pad[k])
    ensures StripRight(s + pad) == StripRight(s)
    decreases |pad|
  {
    if |pad| > 0 {
      assert (s + pad)[..|s + pad| - 1] == s + pad[..|pad| - 1];
      StripRightPad(s, pad[..|pad| - 1]);
    } else {
      assert s + pad == s;
    }
  }

  /** Trailing white space does not change `strip()`. */
  lemma {:induction false} StripThenPad(s: string, pad: string)
    requires forall k :: 0 <= k < |pad| ==> IsSpace(pad[k])
    ensures Strip(s + pad) == Strip(s)
    decreases |s|
  {
    if |s| == 0 {
      assert s + pad == pad + "";
      StripLeftPad(pad, "");
    } else if IsSpace(s[0]) {
      assert (s + pad)[1..] == s[1..] + pad;
      StripThenPad(s[1..], pad);
    } else {
      assert StripLeft(s + pad) == s + pad;
      StripRightPad(s, pad);
    }
  }

  // ---------------------------------------------------------------------
  // file.readlines()
  // ---------------------------------------------------------------------

  /** `readlines()` of a text: every line keeps its `\n`; the last line has
      none when the text does not end with one; no empty lines. */
  function ReadLines(s: string): seq<string>
    decreases |s|
  {
    if |s| == 0 then []
    else
      var rest := ReadLines(s[1..]);
      if s[0] == '\n' || |rest| == 0 then [[s[0]]] + rest
      else [[s[0]] + rest[0]] + rest[1..]
  }

  /** A line's only newline is its last character. */
  predicate IsLine(line: string)
  {
    |line| > 0 && forall k :: 0 <= k < |line| - 1 ==> line[k] != '\n'
  }

  /** Concatenating the lines gives the text back, every line is a line, and
      all but the last end with `\n`. */
  lemma {:induction false} ReadLinesSpec(s: string)
    ensures Concat(ReadLines(s)) == s
    ensures |ReadLines(s)| == 0 <==> |s| == 0
    ensures forall i :: 0 <= i < |ReadLines(s)| ==> IsLine(ReadLines(s)[i])
    ensures forall i :: 0 <= i < |ReadLines(s)| - 1 ==> EndsWith(ReadLines(s)[i], "\n")
    decreases |s|
  {
    if |s| > 0 {
      var rest := ReadLines(s[1..]);
      var lines := ReadLines(s);
      ReadLinesSpec(s[1..]);
      assert s == [s[0]] + s[1..];
      if s[0] == '\n' || |rest| == 0 {
        assert lines[1..] == rest;
        forall i | 0 <= i < |lines| - 1
          ensures EndsWith(lines[i], "\n")
        {
          if i > 0 { assert lines[i] == rest[i - 1]; }
        }
        forall i | 0 <= i < |lines|
          ensures IsLine(lines[i])
        {
          if i > 0 { assert lines[i] == rest[i - 1]; }
        }
      } else {
        assert rest == [rest[0]] + rest[1..];
        assert lines[1..] == rest[1..];
        assert Concat(rest) == rest[0] + Concat(rest[1..]);
        forall i | 0 <= i < |lines| - 1
          ensures EndsWith(lines[i], "\n")
        {
          if i == 0 {
            assert lines[0][|lines[0]| - 1..] == rest[0][|rest[0]| - 1..];
          } else {
            assert lines[i] == rest[i];
          }
        }
        forall i | 0 <= i < |lines|
          ensures IsLine(lines[i])
        {
          if i > 0 { assert lines[i] == rest[i]; }
          else {
            forall k | 0 <= k < |lines[0]| - 1 ensures lines[0][k] != '\n' {
              if k > 0 { assert lines[0][k] == rest[0][k - 1]; }
            }
          }
        }
      }
    }
  }

  /** One step of `ReadLines`: the first character starts or extends the
      first line of the rest. */
  lemma ReadLinesCons(c: char, t: string)
    ensures ReadLines([c] + t) ==
      if c == '\n' || |ReadLines(t)| == 0 then [[c]] + ReadLines(t)
      else [[c] + ReadLines(t)[0]] + ReadLines(t)[1..]
  {
    assert ([c] + t)[0] == c;
    assert ([c] + t)[1..] == t;
  }

  lemma ReadLinesConsNewline(t: string)
    ensures ReadLines(['\n'] + t) == [['\n']] + ReadLines(t)
  {
    assert (['\n'] + t)[0] == '\n';
    assert (['\n'] + t)[1..] == t;
  }

  lemma ReadLinesConsOther(c: char, t: string)
    requires c != '\n' && |t| > 0
    ensures |ReadLines(t)| > 0
    ensures ReadLines([c] + t) == [[c] + ReadLines(t)[0]] + ReadLines(t)[1..]
  {
    ReadLinesNonEmpty(t);
    assert ([c] + t)[0] == c;
    assert ([c] + t)[1..] == t;
  }

  lemma AppendAssoc<T>(a: seq<T>, b: seq<T>, c: seq<T>)
    ensures a + b + c == a + (b + c)
  {
  }

  lemma AppendHeadTail<T>(a: seq<T>, b: seq<T>)
    requires |a| > 0
    ensures (a + b)[0] == a[0] && (a + b)[1..] == a[1..] + b
  {
  }

  /** Prepending a character keeps a split of the lines between `t` and `u`. */
  lemma ReadLinesConsAppend(c: char, t: string, u: string)
    requires |t| > 0
    requires ReadLines(t + u) == ReadLines(t) + ReadLines(u)
    ensures ReadLines([c] + (t + u)) == ReadLines([c] + t) + ReadLines(u)
  {
    var rt := ReadLines(t);
    var ru := ReadLines(u);
    if c != '\n' {
      ReadLinesConsOther(c, t + u);
      ReadLinesConsOther(c, t);
      AppendHeadTail(rt, ru);
      AppendAssoc([[c] + rt[0]], rt[1..], ru);
    } else {
      ReadLinesConsNewline(t + u);
      ReadLinesConsNewline(t);
      AppendAssoc([[c]], rt, ru);
    }
  }

  lemma ReadLinesNonEmpty(t: string)
    requires |t| > 0
    ensures |ReadLines(t)| > 0
  {
  }

  /** Reading a text whose first part ends with a newline reads the two
      parts separately: appending whole lines appends lines. */
  lemma {:induction false} ReadLinesAppend(a: string, b: string)
    requires |a| == 0 || a[|a| - 1] == '\n'
    ensures ReadLines(a + b) == ReadLines(a) + ReadLines(b)
    decreases |a|
  {
    if |a| == 0 {
      assert a + b == b;
    } else {
      var c := a[0];
      var a' := a[1..];
      assert a == [c] + a';
      assert a + b == [c] + (a' + b);
      if |a| == 1 {
        assert a' == "" && a' + b == b;
        ReadLinesCons(c, b);
        ReadLinesCons(c, "");
      } else {
        ReadLinesAppend(a', b);
        ReadLinesConsAppend(c, a', b);
      }
    }
  }

  /** A text that is one line ending with `\n` reads as that single line. */
  lemma {:induction false} ReadOneLine(body: string)
    requires '\n' !in body
    ensures ReadLines(body + "\n") == [body + "\n"]
    decreases |body|
  {
    if |body| == 0 {
      assert body + "\n" == "\n";
      assert ReadLines("") == [];
    } else {
      assert (body + "\n")[1..] == body[1..] + "\n";
      ReadOneLine(body[1..]);
      assert [body[0]] + (body[1..] + "\n") == body + "\n";
    }
  }

  /** The lines of a concatenation of newline-terminated single lines. */
  lemma {:induction false} ReadLinesOfConcat(lines: seq<string>)
    requires forall i :: 0 <= i < |lines| ==> IsLine(lines[i]) && EndsWith(lines[i], "\n")
    ensures ReadLines(Concat(lines)) == lines
  {
    if |lines| > 0 {
      var l := lines[0];
      var body := l[..|l| - 1];
      assert l == body + "\n";
      assert '\n' !in body by {
        forall k | 0 <= k < |body| ensures body[k] != '\n' { assert body[k] == l[k]; }
      }
      ReadOneLine(body);
      ReadLinesOfConcat(lines[1..]);
      ReadLinesAppend(l, Concat(lines[1..]));
      assert [l] + lines[1..] == lines;
    }
  }
}
