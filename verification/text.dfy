/** Character-level string helpers: Python's `str.split` / `str.join` with a
    one-character separator, and prefix tests. */
module Text {

  predicate StartsWith(s: string, prefix: string) {
    |prefix| <= |s| && s[..|prefix|] == prefix
  }

  /** `sep.join(parts)`: the parts with one separator between neighbours. */
  function Join(parts: seq<string>, sep: char): string
  {
    if |parts| == 0 then ""
    else if |parts| == 1 then parts[0]
    else Join(parts[..|parts| - 1], sep) + [sep] + parts[|parts| - 1]
  }

  /** `s.split(sep)`: the maximal separator-free pieces of `s`; an empty string
      yields one empty piece and two adjacent separators an empty piece between them. */
  function Split(s: string, sep: char): (r: seq<string>)
    ensures |r| >= 1
    ensures forall i :: 0 <= i < |r| ==> sep !in r[i]
    decreases |s|
  {
    if |s| == 0 then [""]
    else
      var init := Split(s[..|s| - 1], sep);
      var c := s[|s| - 1];
      assert s == s[..|s| - 1] + [c];
      if c == sep then
        assert (init + [""])[..|init|] == init;
        init + [""]
      else
        init[..|init| - 1] + [init[|init| - 1] + [c]]
  }

  /** `join` undoes `split`. */
  lemma {:induction false} JoinSplit(s: string, sep: char)
    ensures Join(Split(s, sep), sep) == s
    decreases |s|
  {
    if |s| > 0 {
      var init := Split(s[..|s| - 1], sep);
      var c := s[|s| - 1];
      assert s == s[..|s| - 1] + [c];
      JoinSplit(s[..|s| - 1], sep);
      if c != sep {
        JoinExtendLast(init, sep, c);
      }
    }
  }

  /** Appending a character to the last part appends it to the joined string. */
  lemma JoinExtendLast(parts: seq<string>, sep: char, c: char)
    requires |parts| >= 1
    ensures Join(parts[..|parts| - 1] + [parts[|parts| - 1] + [c]], sep) == Join(parts, sep) + [c]
  {
    var n := |parts|;
    var q := parts[..n - 1] + [parts[n - 1] + [c]];
    if n > 1 {
      assert q[..n - 1] == parts[..n - 1];
    }
  }

  /** A string without the separator is a single piece. */
  lemma {:induction false} SplitNoSep(s: string, sep: char)
    requires sep !in s
    ensures Split(s, sep) == [s]
    decreases |s|
  {
    if |s| > 0 {
      assert sep !in s[..|s| - 1];
      SplitNoSep(s[..|s| - 1], sep);
      assert s == s[..|s| - 1] + [s[|s| - 1]];
    }
  }

  /** Appending the separator starts a new, empty piece. */
  lemma SplitSnocSep(s: string, sep: char)
    ensures Split(s + [sep], sep) == Split(s, sep) + [""]
  {
    assert (s + [sep])[..|s|] == s;
  }

  /** Appending any other character extends the last piece. */
  lemma SplitSnocOther(s: string, c: char, sep: char)
    requires c != sep
    ensures var p := Split(s, sep); Split(s + [c], sep) == p[..|p| - 1] + [p[|p| - 1] + [c]]
  {
    assert (s + [c])[..|s|] == s;
  }

  lemma ExtendLastConcat<T>(l: seq<seq<T>>, r: seq<seq<T>>, c: T)
    requires |r| >= 1
    ensures (l + r)[..|l + r| - 1] + [(l + r)[|l + r| - 1] + [c]] == l + (r[..|r| - 1] + [r[|r| - 1] + [c]])
  {
    assert (l + r)[..|l + r| - 1] == l + r[..|r| - 1];
  }

  lemma SplitAroundSepStep(a: string, sep: char, b: string)
    requires Split(a + [sep] + b, sep) == Split(a, sep) + Split(b, sep)
    ensures Split((a + [sep] + b) + [sep], sep) == Split(a, sep) + Split(b + [sep], sep)
  {
    SplitSnocSep(a + [sep] + b, sep);
    SplitSnocSep(b, sep);
    assert (Split(a, sep) + Split(b, sep)) + [""] == Split(a, sep) + (Split(b, sep) + [""]);
  }

  lemma SplitAroundOtherStep(a: string, sep: char, b: string, c: char)
    requires c != sep
    requires Split(a + [sep] + b, sep) == Split(a, sep) + Split(b, sep)
    ensures Split((a + [sep] + b) + [c], sep) == Split(a, sep) + Split(b + [c], sep)
  {
    SplitSnocOther(a + [sep] + b, c, sep);
    SplitSnocOther(b, c, sep);
    ExtendLastConcat(Split(a, sep), Split(b, sep), c);
  }

  /** Splitting distributes over a separator occurrence. */
  lemma {:induction false} SplitAround(a: string, sep: char, b: string)
    ensures Split(a + [sep] + b, sep) == Split(a, sep) + Split(b, sep)
    decreases |b|
  {
    if |b| == 0 {
      assert a + [sep] + b == a + [sep];
      SplitSnocSep(a, sep);
    } else {
      var b' := b[..|b| - 1];
      var c := b[|b| - 1];
      assert b == b' + [c];
      assert a + [sep] + b == (a + [sep] + b') + [c];
      SplitAround(a, sep, b');
      if c == sep {
        SplitAroundSepStep(a, sep, b');
      } else {
        SplitAroundOtherStep(a, sep, b', c);
      }
    }
  }

  /** Joining one more part puts a separator before it. */
  lemma JoinSnoc(init: seq<string>, last: string, sep: char)
    requires |init| >= 1
    ensures Join(init + [last], sep) == Join(init, sep) + [sep] + last
  {
    assert (init + [last])[..|init|] == init;
  }

  lemma SplitJoinStep(init: seq<string>, last: string, sep: char)
    requires |init| >= 1 && sep !in last
    requires Split(Join(init, sep), sep) == init
    ensures Split(Join(init + [last], sep), sep) == init + [last]
  {
    JoinSnoc(init, last, sep);
    SplitAround(Join(init, sep), sep, last);
    SplitNoSep(last, sep);
  }

  /** `split` undoes `join` when no part contains the separator. */
  lemma {:induction false} SplitJoin(parts: seq<string>, sep: char)
    requires |parts| >= 1
    requires forall i :: 0 <= i < |parts| ==> sep !in parts[i]
    ensures Split(Join(parts, sep), sep) == parts
    decreases |parts|
  {
    if |parts| == 1 {
      SplitNoSep(parts[0], sep);
    } else {
      var init := parts[..|parts| - 1];
      var last := parts[|parts| - 1];
      assert parts == init + [last];
      assert forall i :: 0 <= i < |init| ==> sep !in init[i] by {
        forall i | 0 <= i < |init| ensures sep !in init[i] {
          assert init[i] == parts[i];
        }
      }
      SplitJoin(init, sep);
      SplitJoinStep(init, last, sep);
    }
  }

  /** The position of the first `c` in `s`, or `|s|` when there is none. */
  function IndexOf(s: string, c: char): (i: nat)
    ensures i <= |s|
    ensures i < |s| ==> s[i] == c
    ensures c !in s[..i]
    decreases |s|
  {
    if |s| == 0 then 0
    else if s[0] == c then 0
    else
      var i := 1 + IndexOf(s[1..], c);
      assert s[..i] == [s[0]] + s[1..][..i - 1];
      i
  }

  /** The first `c` of `a + [c] + b` is the one after `a` when `a` has none. */
  lemma IndexOfAfter(a: string, c: char, b: string)
    requires c !in a
    ensures IndexOf(a + [c] + b, c) == |a|
  {
    var s := a + [c] + b;
    assert s[|a|] == c;
    assert s[..|a|] == a;
  }

  /** The text of `lines`, each followed by a newline. */
  function Unlines(lines: seq<string>): string {
    Join(lines + [""], '\n')
  }

  /** Splitting the text at newlines gives the lines back, then the empty rest after the last newline. */
  lemma UnlinesSplit(lines: seq<string>)
    requires forall i :: 0 <= i < |lines| ==> '\n' !in lines[i]
    ensures Split(Unlines(lines), '\n') == lines + [""]
  {
    var all := lines + [""];
    assert forall i :: 0 <= i < |all| ==> '\n' !in all[i] by {
      forall i | 0 <= i < |all| ensures '\n' !in all[i] {
        if i < |lines| { assert all[i] == lines[i]; }
      }
    }
    SplitJoin(all, '\n');
  }
}
