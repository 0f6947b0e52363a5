/**
 * The three Python string operations the link-header code relies on:
 * substring test (`t in s`), `s.split(sep)` with a one-character separator,
 * and `s.strip(chars)`.
 */
module PyStr {

  /** `t in s`: t occurs in s as a contiguous block. */
  predicate Contains(s: string, t: string)
    decreases |s|
  {
    t <= s || (s != [] && Contains(s[1..], t))
  }

  /** Contains agrees with the positional reading of `t in s`. */
  lemma {:induction false} ContainsAt(s: string, t: string, i: nat)
    requires i + |t| <= |s| && s[i..i + |t|] == t
    ensures Contains(s, t)
    decreases i
  {
    if i > 0 {
      assert s[1..][i - 1..i - 1 + |t|] == s[i..i + |t|];
      ContainsAt(s[1..], t, i - 1);
    } else {
      assert t <= s;
    }
  }

  /** Every occurrence found by Contains sits at some position of s. */
  lemma {:induction false} ContainsWitness(s: string, t: string) returns (i: nat)
    requires Contains(s, t)
    ensures i + |t| <= |s| && s[i..i + |t|] == t
    decreases |s|
  {
    if t <= s {
      i := 0;
    } else {
      var j := ContainsWitness(s[1..], t);
      assert s[1..][j..j + |t|] == s[j + 1..j + 1 + |t|];
      i := j + 1;
    }
  }

  /** `s.split(sep)`: the pieces between consecutive separators, empty ones included, in order; never empty. */
  function Split(s: string, sep: char): (pieces: seq<string>)
    ensures |pieces| >= 1
    ensures pieces[0] <= s
    ensures forall k :: 0 <= k < |pieces| ==> sep !in pieces[k]
    decreases |s|
  {
    if s == [] then [""]
    else
      var rest := Split(s[1..], sep);
      if s[0] == sep then [""] + rest
      else [[s[0]] + rest[0]] + rest[1..]
  }

  /** `sep.join(pieces)`, the inverse of Split. */
  function Join(pieces: seq<string>, sep: char): string
    requires |pieces| >= 1
  {
    if |pieces| == 1 then pieces[0] else pieces[0] + [sep] + Join(pieces[1..], sep)
  }

  /** Splitting loses nothing: joining the pieces back gives the original string. */
  lemma {:induction false} SplitJoin(s: string, sep: char)
    ensures Join(Split(s, sep), sep) == s
    decreases |s|
  {
    if s != [] {
      var rest := Split(s[1..], sep);
      SplitJoin(s[1..], sep);
      if s[0] == sep {
        assert ([""] + rest)[1..] == rest;
      } else if |rest| > 1 {
        var pieces := [[s[0]] + rest[0]] + rest[1..];
        assert pieces[1..] == rest[1..];
        assert Join(rest, sep) == rest[0] + [sep] + Join(rest[1..], sep);
        assert [s[0]] + s[1..] == s;
      } else {
        assert [s[0]] + s[1..] == s;
      }
    }
  }

  /** Split is the inverse of Join on pieces that do not contain the separator. */
  lemma {:induction false} JoinSplit(pieces: seq<string>, sep: char)
    requires |pieces| >= 1
    requires forall k :: 0 <= k < |pieces| ==> sep !in pieces[k]
    ensures Split(Join(pieces, sep), sep) == pieces
    decreases |pieces|
  {
    if |pieces| == 1 {
      SplitNoSep(pieces[0], sep);
    } else {
      JoinSplit(pieces[1..], sep);
      SplitAfterSep(pieces[0], Join(pieces[1..], sep), sep);
      assert [pieces[0]] + pieces[1..] == pieces;
    }
  }

  /** A string without the separator splits into itself. */
  lemma {:induction false} SplitNoSep(s: string, sep: char)
    requires sep !in s
    ensures Split(s, sep) == [s]
    decreases |s|
  {
    if s != [] {
      assert sep !in s[1..];
      SplitNoSep(s[1..], sep);
      assert [s[0]] + s[1..] == s;
    }
  }

  /** A separator-free head followed by the separator becomes the first piece. */
  lemma {:induction false} SplitAfterSep(a: string, b: string, sep: char)
    requires sep !in a
    ensures Split(a + [sep] + b, sep) == [a] + Split(b, sep)
    decreases |a|
  {
    var s := a + [sep] + b;
    if a == [] {
      assert s[1..] == b;
    } else {
      assert s[1..] == a[1..] + [sep] + b;
      assert sep !in a[1..];
      SplitAfterSep(a[1..], b, sep);
      assert [a[0]] + a[1..] == a;
    }
  }

  /** `s.split(sep)[0]`: the text of s before its first sep (all of s if there is none). */
  function Before(s: string, sep: char): string {
    Split(s, sep)[0]
  }

  /** Before is the longest sep-free prefix: it stops at the end of s or at a sep. */
  lemma {:induction false} BeforeSpec(s: string, sep: char)
    ensures Before(s, sep) <= s && sep !in Before(s, sep)
    ensures |Before(s, sep)| == |s| || s[|Before(s, sep)|] == sep
    decreases |s|
  {
    if s != [] && s[0] != sep {
      BeforeSpec(s[1..], sep);
    }
  }

  /** `s.lstrip(chars)`. */
  function TrimLeft(s: string, chars: set<char>): (r: string)
    ensures |r| <= |s| && r == s[|s| - |r|..]
    ensures forall k :: 0 <= k < |s| - |r| ==> s[k] in chars
    ensures r == [] || r[0] !in chars
    decreases |s|
  {
    if s != [] && s[0] in chars then
      var r := TrimLeft(s[1..], chars);
      assert forall k :: 1 <= k < |s| - |r| ==> s[k] == s[1..][k - 1];
      r
    else s
  }

  /** `s.rstrip(chars)`. */
  function TrimRight(s: string, chars: set<char>): (r: string)
    ensures |r| <= |s| && r == s[..|r|]
    ensures forall k :: |r| <= k < |s| ==> s[k] in chars
    ensures r == [] || r[|r| - 1] !in chars
    decreases |s|
  {
    if s != [] && s[|s| - 1] in chars then TrimRight(s[..|s| - 1], chars) else s
  }

  /** `s.strip(chars)`: removes only characters of `chars` from both ends, nothing else. */
  function Strip(s: string, chars: set<char>): string {
    TrimRight(TrimLeft(s, chars), chars)
  }

  /** Strip yields the block s[i..i+|r|] whose outside characters all lie in chars and whose end characters do not. */
  lemma StripSpec(s: string, chars: set<char>) returns (i: nat)
    ensures var r := Strip(s, chars);
      i + |r| <= |s| && s[i..i + |r|] == r
      && (forall k :: 0 <= k < i ==> s[k] in chars)
      && (forall k :: i + |r| <= k < |s| ==> s[k] in chars)
      && (r == [] || (r[0] !in chars && r[|r| - 1] !in chars))
  {
    i := |s| - |TrimLeft(s, chars)|;
    StripBlock(s, chars);
    StripTrailing(s, chars);
    StripEnds(s, chars);
  }

  /** The stripped text is the block of s that starts where the left trim stopped. */
  lemma StripBlock(s: string, chars: set<char>)
    ensures var i, r := |s| - |TrimLeft(s, chars)|, Strip(s, chars);
      i + |r| <= |s| && s[i..i + |r|] == r
  {
    var l := TrimLeft(s, chars);
    var r := TrimRight(l, chars);
    var i := |s| - |l|;
    assert l == s[i..];
    assert r == l[..|r|];
    SliceOfSuffix(s, i, |r|);
  }

  /** Everything after the stripped block is in chars. */
  lemma StripTrailing(s: string, chars: set<char>)
    ensures var i, r := |s| - |TrimLeft(s, chars)|, Strip(s, chars);
      forall k :: i + |r| <= k < |s| ==> s[k] in chars
  {
    var l := TrimLeft(s, chars);
    var r := TrimRight(l, chars);
    var i := |s| - |l|;
    forall k | i + |r| <= k < |s| ensures s[k] in chars {
      assert s[k] == l[k - i];
    }
  }

  /** The stripped block neither starts nor ends with a character of chars. */
  lemma StripEnds(s: string, chars: set<char>)
    ensures var r := Strip(s, chars); r == [] || (r[0] !in chars && r[|r| - 1] !in chars)
  {
    var l := TrimLeft(s, chars);
    var r := TrimRight(l, chars);
    assert r != [] ==> l != [] && r[0] == l[0];
  }

  /** Taking n elements of the suffix from i is the slice from i to i+n. */
  lemma SliceOfSuffix<T>(s: seq<T>, i: nat, n: nat)
    requires i + n <= |s|
    ensures s[i..][..n] == s[i..i + n]
  {
  }

  /** A slice of the tail is the slice one further on. */
  lemma SliceOfTail<T>(s: seq<T>, o: nat, n: nat)
    requires 1 + o + n <= |s|
    ensures s[1..][o..o + n] == s[o + 1..o + 1 + n]
  {
  }

  /** A first character outside chars survives Strip: stripping never removes anything else, whitespace included. */
  lemma KeepsLeadingOther(s: string, chars: set<char>)
    requires s != [] && s[0] !in chars
    ensures Strip(s, chars) != [] && Strip(s, chars)[0] == s[0]
  {
    var l := TrimLeft(s, chars);
    assert l == s;
  }
}
