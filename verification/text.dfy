/** String helpers shared by the MIME-type resolver, the output-key
    derivation and the processor name: splitting on one character (as
    JavaScript's `String.prototype.split` does with a one-character
    separator), joining back, ASCII lower-casing, and the last segment. */
module Text {

  /** The pieces of `s` between occurrences of `sep`, in order. Like
      `s.split(sep)` there is always at least one piece: `""` splits into
      `[""]`, and a separator at either end yields an empty piece there. */
  function Split(s: string, sep: char): (parts: seq<string>)
    ensures |parts| >= 1
    ensures forall i :: 0 <= i < |parts| ==> sep !in parts[i]
    decreases |s|
  {
    if |s| == 0 then [[]]
    else
      var init := Split(s[..|s| - 1], sep);
      var c := s[|s| - 1];
      if c == sep then init + [[]]
      else init[..|init| - 1] + [init[|init| - 1] + [c]]
  }

  /** The pieces glued back together with `sep` between neighbours. */
  function Join(parts: seq<string>, sep: char): string
    decreases |parts|
  {
    if |parts| == 0 then []
    else if |parts| == 1 then parts[0]
    else Join(parts[..|parts| - 1], sep) + [sep] + parts[|parts| - 1]
  }

  /** Splitting loses nothing: joining the pieces restores the string. */
  lemma {:induction false} JoinSplit(s: string, sep: char)
    ensures Join(Split(s, sep), sep) == s
    decreases |s|
  {
    if |s| > 0 {
      var init := Split(s[..|s| - 1], sep);
      JoinSplit(s[..|s| - 1], sep);
      var c := s[|s| - 1];
      var parts := Split(s, sep);
      if c == sep {
        assert parts[..|parts| - 1] == init;
      } else if |init| > 1 {
        assert parts[..|parts| - 1] == init[..|init| - 1];
      }
      assert s == s[..|s| - 1] + [c];
    }
  }

  /** A separator-free string is a single piece. */
  lemma {:induction false} SplitFree(e: string, sep: char)
    requires sep !in e
    ensures Split(e, sep) == [e]
    decreases |e|
  {
    if |e| > 0 {
      var e' := e[..|e| - 1];
      assert sep !in e' by {
        forall j | 0 <= j < |e'| ensures e'[j] != sep {
          assert e[j] != sep;
        }
      }
      SplitFree(e', sep);
      assert e' + [e[|e| - 1]] == e;
    }
  }

  /** Appending a separator and a separator-free tail adds exactly that
      tail as one more piece. */
  lemma {:induction false} SplitAppend(x: string, sep: char, e: string)
    requires sep !in e
    ensures Split(x + [sep] + e, sep) == Split(x, sep) + [e]
    decreases |e|
  {
    var s := x + [sep] + e;
    if |e| == 0 {
      assert s[..|s| - 1] == x;
    } else {
      var e' := e[..|e| - 1];
      assert sep !in e' by {
        forall j | 0 <= j < |e'| ensures e'[j] != sep {
          assert e[j] != sep;
        }
      }
      var c := e[|e| - 1];
      SplitAppend(x, sep, e');
      assert s[..|s| - 1] == x + [sep] + e';
      assert s[|s| - 1] == c && c != sep;
      var init := Split(x + [sep] + e', sep);
      assert Split(s, sep) == init[..|init| - 1] + [init[|init| - 1] + [c]];
      assert init[..|init| - 1] == Split(x, sep);
      assert e' + [c] == e;
    }
  }

  /** Joining separator-free pieces and splitting again gives them back. */
  lemma {:induction false} SplitJoin(parts: seq<string>, sep: char)
    requires |parts| >= 1
    requires forall i :: 0 <= i < |parts| ==> sep !in parts[i]
    ensures Split(Join(parts, sep), sep) == parts
    decreases |parts|
  {
    if |parts| == 1 {
      SplitFree(parts[0], sep);
    } else {
      var init := parts[..|parts| - 1];
      SplitJoin(init, sep);
      SplitAppend(Join(init, sep), sep, parts[|parts| - 1]);
      assert init + [parts[|parts| - 1]] == parts;
    }
  }

  /** `seg` is what follows the last `sep` of `s`, or all of `s` when it has
      no `sep`: a separator-free suffix that starts the string or follows a
      separator. */
  ghost predicate IsLastSegment(s: string, sep: char, seg: string) {
    && |seg| <= |s|
    && s[|s| - |seg|..] == seg
    && sep !in seg
    && (|seg| == |s| || s[|s| - |seg| - 1] == sep)
  }

  /** At most one string is the last segment. */
  lemma LastSegmentUnique(s: string, sep: char, a: string, b: string)
    requires IsLastSegment(s, sep, a) && IsLastSegment(s, sep, b)
    ensures a == b
  {
  }

  /** The last piece of `Split(s, sep)`, as `s.split(sep).pop()`. */
  function LastSegment(s: string, sep: char): (seg: string)
    ensures IsLastSegment(s, sep, seg)
  {
    LastPieceIsLastSegment(s, sep);
    var parts := Split(s, sep);
    parts[|parts| - 1]
  }

  /** The last piece of the split is the last segment. */
  lemma LastPieceIsLastSegment(s: string, sep: char)
    ensures var parts := Split(s, sep); IsLastSegment(s, sep, parts[|parts| - 1])
  {
    var parts := Split(s, sep);
    JoinSplit(s, sep);
    if |parts| > 1 {
      assert s == Join(parts[..|parts| - 1], sep) + [sep] + parts[|parts| - 1];
    }
  }

  /** A separator-free `e` after a separator is the last segment, whatever
      precedes it. */
  lemma LastSegmentAfterSep(p: string, sep: char, e: string)
    requires sep !in e
    ensures LastSegment(p + [sep] + e, sep) == e
  {
    var s := p + [sep] + e;
    assert s[|s| - |e|..] == e;
    assert s[|s| - |e| - 1] == sep;
    LastSegmentUnique(s, sep, e, LastSegment(s, sep));
  }

  /** A string without the separator is its own last segment. */
  lemma LastSegmentOfFree(e: string, sep: char)
    requires sep !in e
    ensures LastSegment(e, sep) == e
  {
    assert e[0..] == e;
    LastSegmentUnique(e, sep, e, LastSegment(e, sep));
  }

  /** ASCII lower-casing of one character; every other character is kept. */
  function LowerChar(c: char): char {
    if 'A' <= c <= 'Z' then (c as int + ('a' as int - 'A' as int)) as char else c
  }

  /** Lower-casing changes only the letters A to Z, so no character becomes
      or stops being punctuation such as `.` or `/`. */
  lemma LowerCharFixesNonLetters(c: char, d: char)
    requires !('A' <= d <= 'Z') && !('a' <= d <= 'z')
    ensures LowerChar(c) == d <==> c == d
  {
  }

  /** `s` with every ASCII upper-case letter replaced by its lower case. */
  function ToLowerAscii(s: string): (r: string)
    ensures |r| == |s|
    ensures forall i :: 0 <= i < |s| ==> r[i] == LowerChar(s[i])
    ensures forall i :: 0 <= i < |r| ==> !('A' <= r[i] <= 'Z')
  {
    seq(|s|, i requires 0 <= i < |s| => LowerChar(s[i]))
  }

  /** Lower-casing twice is lower-casing once. */
  lemma ToLowerIdempotent(s: string)
    ensures ToLowerAscii(ToLowerAscii(s)) == ToLowerAscii(s)
  {
  }

  /** Lower-casing and taking the last segment commute, when the separator
      is not a letter. */
  lemma LastSegmentToLower(s: string, sep: char)
    requires !('A' <= sep <= 'Z') && !('a' <= sep <= 'z')
    ensures LastSegment(ToLowerAscii(s), sep) == ToLowerAscii(LastSegment(s, sep))
  {
    var seg := LastSegment(s, sep);
    var ls := ToLowerAscii(s);
    var lseg := ToLowerAscii(seg);
    forall i | 0 <= i < |seg| ensures lseg[i] != sep {
      LowerCharFixesNonLetters(seg[i], sep);
    }
    assert ls[|ls| - |lseg|..] == lseg;
    if |seg| < |s| {
      LowerCharFixesNonLetters(s[|s| - |seg| - 1], sep);
    }
    assert IsLastSegment(ls, sep, lseg);
    LastSegmentUnique(ls, sep, lseg, LastSegment(ls, sep));
  }
}
