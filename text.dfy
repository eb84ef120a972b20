/** The two ways the dictionary code cuts strings apart, with JavaScript's semantics:
    `s.split(c)` for a one-character separator string, and `s.split(/\r?\n/)`. */
module Text {

  /** `s.split(c)` for a string `c` of one character: the pieces between consecutive
      occurrences of `sep`, from left to right, empty pieces included. */
  function SplitOn(s: string, sep: char): (parts: seq<string>)
    ensures |parts| >= 1
  {
    SplitOnFrom(s, sep, "")
  }

  /** Scanner behind `SplitOn`: `cur` is the piece read so far. */
  function SplitOnFrom(s: string, sep: char, cur: string): (parts: seq<string>)
    ensures |parts| >= 1
    decreases |s|
  {
    if s == [] then [cur]
    else if s[0] == sep then [cur] + SplitOnFrom(s[1..], sep, "")
    else SplitOnFrom(s[1..], sep, cur + [s[0]])
  }

  /** The inverse of `SplitOn`: the pieces with `sep` between each two of them. */
  function Join(parts: seq<string>, sep: char): string
    requires |parts| >= 1
  {
    if |parts| == 1 then parts[0] else parts[0] + [sep] + Join(parts[1..], sep)
  }

  /** A string without the separator is one piece. */
  lemma {:induction false} SplitOnFromNoSep(s: string, sep: char, cur: string)
    requires sep !in s
    ensures SplitOnFrom(s, sep, cur) == [cur + s]
    decreases |s|
  {
    if s != [] {
      assert s[0] != sep && sep !in s[1..];
      SplitOnFromNoSep(s[1..], sep, cur + [s[0]]);
      assert s == [s[0]] + s[1..];
      assert cur + [s[0]] + s[1..] == cur + s;
      assert SplitOnFrom(s, sep, cur) == SplitOnFrom(s[1..], sep, cur + [s[0]]);
    } else {
      assert cur + s == cur;
    }
  }

  lemma SplitOnNoSep(s: string, sep: char)
    requires sep !in s
    ensures SplitOn(s, sep) == [s]
  {
    SplitOnFromNoSep(s, sep, "");
    assert "" + s == s;
  }

  lemma {:induction false} SplitOnFromConcat(a: string, b: string, sep: char, cur: string)
    ensures SplitOnFrom(a + [sep] + b, sep, cur) == SplitOnFrom(a, sep, cur) + SplitOnFrom(b, sep, "")
    decreases |a|
  {
    var s := a + [sep] + b;
    if a == [] {
      assert s[0] == sep && s[1..] == b;
    } else {
      assert s[0] == a[0] && s[1..] == a[1..] + [sep] + b;
      if a[0] == sep {
        SplitOnFromConcat(a[1..], b, sep, "");
      } else {
        SplitOnFromConcat(a[1..], b, sep, cur + [a[0]]);
      }
    }
  }

  /** Splitting at one occurrence of the separator and then splitting both sides
      gives the same pieces as splitting the whole. */
  lemma SplitOnConcat(a: string, b: string, sep: char)
    ensures SplitOn(a + [sep] + b, sep) == SplitOn(a, sep) + SplitOn(b, sep)
  {
    SplitOnFromConcat(a, b, sep, "");
  }

  lemma {:induction false} SplitOnFromCount(s: string, sep: char, cur: string)
    ensures |SplitOnFrom(s, sep, cur)| == 1 + multiset(s)[sep]
    decreases |s|
  {
    if s != [] {
      assert s == [s[0]] + s[1..];
      assert multiset(s) == multiset([s[0]]) + multiset(s[1..]);
      if s[0] == sep {
        SplitOnFromCount(s[1..], sep, "");
      } else {
        SplitOnFromCount(s[1..], sep, cur + [s[0]]);
      }
    }
  }

  /** There is exactly one more piece than there are separators. */
  lemma SplitOnCount(s: string, sep: char)
    ensures |SplitOn(s, sep)| == 1 + multiset(s)[sep]
  {
    SplitOnFromCount(s, sep, "");
  }

  lemma {:induction false} SplitOnFromPieces(s: string, sep: char, cur: string)
    requires sep !in cur
    ensures forall i :: 0 <= i < |SplitOnFrom(s, sep, cur)| ==> sep !in SplitOnFrom(s, sep, cur)[i]
    decreases |s|
  {
    if s != [] {
      if s[0] == sep {
        SplitOnFromPieces(s[1..], sep, "");
      } else {
        SplitOnFromPieces(s[1..], sep, cur + [s[0]]);
      }
    }
  }

  /** No piece contains the separator. */
  lemma SplitOnPieces(s: string, sep: char)
    ensures forall i :: 0 <= i < |SplitOn(s, sep)| ==> sep !in SplitOn(s, sep)[i]
  {
    SplitOnFromPieces(s, sep, "");
  }

  lemma {:induction false} JoinSplitOnFrom(s: string, sep: char, cur: string)
    ensures Join(SplitOnFrom(s, sep, cur), sep) == cur + s
    decreases |s|
  {
    if s == [] {
    } else if s[0] == sep {
      var rest := SplitOnFrom(s[1..], sep, "");
      JoinSplitOnFrom(s[1..], sep, "");
      assert ([cur] + rest)[1..] == rest;
      assert s == [sep] + s[1..];
    } else {
      JoinSplitOnFrom(s[1..], sep, cur + [s[0]]);
      assert cur + [s[0]] + s[1..] == cur + s;
    }
  }

  /** Joining the pieces again gives back the string. */
  lemma JoinSplitOn(s: string, sep: char)
    ensures Join(SplitOn(s, sep), sep) == s
  {
    JoinSplitOnFrom(s, sep, "");
  }

  /** Splitting a join of separator-free pieces gives back the pieces. */
  lemma {:induction false} SplitOnJoin(parts: seq<string>, sep: char)
    requires |parts| >= 1
    requires forall i :: 0 <= i < |parts| ==> sep !in parts[i]
    ensures SplitOn(Join(parts, sep), sep) == parts
    decreases |parts|
  {
    if |parts| == 1 {
      SplitOnNoSep(parts[0], sep);
    } else {
      SplitOnConcat(parts[0], Join(parts[1..], sep), sep);
      SplitOnNoSep(parts[0], sep);
      SplitOnJoin(parts[1..], sep);
      assert parts == [parts[0]] + parts[1..];
    }
  }

  /** The last piece of a split: the piece started so far when nothing follows, empty
      after a final separator, and otherwise it ends with the string's last character. */
  lemma {:induction false} SplitOnFromLast(s: string, sep: char, cur: string)
    ensures var p := SplitOnFrom(s, sep, cur);
      && (s == [] ==> p[|p| - 1] == cur)
      && (s != [] && s[|s| - 1] == sep ==> p[|p| - 1] == "")
      && (s != [] && s[|s| - 1] != sep ==> |p[|p| - 1]| > 0 && p[|p| - 1][|p[|p| - 1]| - 1] == s[|s| - 1])
    decreases |s|
  {
    if s != [] {
      var t := s[1..];
      assert t != [] ==> t[|t| - 1] == s[|s| - 1];
      if s[0] == sep {
        SplitOnFromLast(t, sep, "");
      } else {
        SplitOnFromLast(t, sep, cur + [s[0]]);
      }
    }
  }

  // ---------------------------------------------------------------------------
  // Splitting into lines

  /** `s.split(/\r?\n/)`: the regular expression is tried at each position from the
      left; a line feed is a break, and so is a carriage return directly followed by
      a line feed. A carriage return anywhere else is an ordinary character. */
  function SplitLines(s: string): (lines: seq<string>)
    ensures |lines| >= 1
  {
    SplitLinesFrom(s, "")
  }

  /** Scanner behind `SplitLines`: `cur` is the line read so far. */
  function SplitLinesFrom(s: string, cur: string): (lines: seq<string>)
    ensures |lines| >= 1
    decreases |s|
  {
    if s == [] then [cur]
    else if s[0] == '\n' then [cur] + SplitLinesFrom(s[1..], "")
    else if s[0] == '\r' && |s| >= 2 && s[1] == '\n' then [cur] + SplitLinesFrom(s[2..], "")
    else SplitLinesFrom(s[1..], cur + [s[0]])
  }

  predicate EndsWithCR(x: string) {
    |x| > 0 && x[|x| - 1] == '\r'
  }

  /** `x` without one trailing carriage return, if it has one. */
  function StripCR(x: string): string {
    if EndsWithCR(x) then x[..|x| - 1] else x
  }

  /** Every piece but the last without its trailing carriage return. */
  function StripCRs(parts: seq<string>): seq<string>
    requires |parts| >= 1
  {
    seq(|parts|, i requires 0 <= i < |parts| => if i == |parts| - 1 then parts[i] else StripCR(parts[i]))
  }

  lemma StripCRsCons(x: string, rest: seq<string>)
    requires |rest| >= 1
    ensures StripCRs([x] + rest) == [StripCR(x)] + StripCRs(rest)
  {
    var l, r := StripCRs([x] + rest), [StripCR(x)] + StripCRs(rest);
    assert |l| == |r|;
    forall i | 0 <= i < |l| ensures l[i] == r[i] {
      if i > 0 {
        assert ([x] + rest)[i] == rest[i - 1];
      }
    }
  }

  lemma {:induction false} SplitLinesFromReference(s: string, cur: string)
    requires !(EndsWithCR(cur) && s != [] && s[0] == '\n')
    ensures SplitLinesFrom(s, cur) == StripCRs(SplitOnFrom(s, '\n', cur))
    decreases |s|
  {
    if s == [] {
    } else if s[0] == '\n' {
      SplitLinesFromReference(s[1..], "");
      StripCRsCons(cur, SplitOnFrom(s[1..], '\n', ""));
    } else if s[0] == '\r' && |s| >= 2 && s[1] == '\n' {
      SplitLinesFromReference(s[2..], "");
      assert s[1..][0] == '\n' && s[1..][1..] == s[2..];
      assert SplitOnFrom(s, '\n', cur) == [cur + ['\r']] + SplitOnFrom(s[2..], '\n', "");
      StripCRsCons(cur + ['\r'], SplitOnFrom(s[2..], '\n', ""));
      assert StripCR(cur + ['\r']) == cur;
    } else {
      SplitLinesFromReference(s[1..], cur + [s[0]]);
    }
  }

  /** Reference characterisation of the line split: split on every line feed, then
      drop one carriage return from the end of every line except the last. */
  lemma SplitLinesReference(s: string)
    ensures SplitLines(s) == StripCRs(SplitOn(s, '\n'))
  {
    SplitLinesFromReference(s, "");
  }

  /** One line per line feed plus one: blank lines are kept, nothing is skipped. */
  lemma SplitLinesCount(s: string)
    ensures |SplitLines(s)| == 1 + multiset(s)['\n']
  {
    SplitLinesReference(s);
    SplitOnCount(s, '\n');
  }

  /** No line contains a line feed. */
  lemma SplitLinesPieces(s: string)
    ensures forall i :: 0 <= i < |SplitLines(s)| ==> '\n' !in SplitLines(s)[i]
  {
    SplitLinesReference(s);
    SplitOnPieces(s, '\n');
    var p := SplitOn(s, '\n');
    forall i | 0 <= i < |p|
      ensures '\n' !in StripCRs(p)[i]
    {
      assert '\n' !in p[i];
      if i < |p| - 1 && EndsWithCR(p[i]) {
        assert StripCRs(p)[i] == p[i][..|p[i]| - 1];
        assert forall k :: 0 <= k < |p[i]| - 1 ==> p[i][..|p[i]| - 1][k] == p[i][k];
      }
    }
  }

  /** Text without line breaks is a single line, carriage returns and all. */
  lemma SplitLinesSingle(t: string)
    requires '\n' !in t
    ensures SplitLines(t) == [t]
  {
    SplitLinesReference(t);
    SplitOnNoSep(t, '\n');
  }

  lemma StripCRsSnoc(parts: seq<string>, t: string)
    requires |parts| >= 1
    ensures StripCRs(parts + [t]) == StripCRs(parts[..|parts| - 1] + [StripCR(parts[|parts| - 1])]) + [t]
  {
    var l := StripCRs(parts + [t]);
    var r := StripCRs(parts[..|parts| - 1] + [StripCR(parts[|parts| - 1])]) + [t];
    assert |l| == |r|;
    forall i | 0 <= i < |l| ensures l[i] == r[i] {
      if i < |parts| - 1 {
        assert (parts + [t])[i] == parts[i];
      } else if i == |parts| - 1 {
        assert (parts + [t])[i] == parts[i];
      }
    }
  }

  /** Adding a line feed and a line-feed-free `t` to the end of `s` adds `t` as the
      last line; it keeps every line of `s` as it was unless `s` ends with a carriage
      return, which then joins the line feed to form a break. */
  lemma SplitLinesAppend(s: string, t: string)
    requires '\n' !in t
    ensures var lines := SplitLines(s + "\n" + t);
      && |lines| >= 2 && lines[|lines| - 1] == t
      && (!EndsWithCR(s) ==> lines == SplitLines(s) + [t])
  {
    var p := SplitOn(s, '\n');
    SplitLinesReference(s + "\n" + t);
    SplitLinesReference(s);
    SplitOnConcat(s, t, '\n');
    SplitOnNoSep(t, '\n');
    assert s + "\n" + t == s + ['\n'] + t;
    assert SplitOn(s + "\n" + t, '\n') == p + [t];
    StripCRsSnoc(p, t);
    if !EndsWithCR(s) {
      SplitOnFromLast(s, '\n', "");
      assert !EndsWithCR(p[|p| - 1]);
      assert p[..|p| - 1] + [StripCR(p[|p| - 1])] == p;
    }
  }
}
