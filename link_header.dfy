/**
 * Extraction of the next-page URL from a `Link` response header
 * (comma-separated entries such as `<url>; rel="next"`, loosely after
 * section 3 of RFC 8288, Web Linking), exactly as the exporter does it:
 * split on ',', keep the entries containing `rel="next"`, take each kept
 * entry's text before its first ';' and strip '<' and '>' from both ends.
 */
module LinkHeader {
  import opened Wrappers
  import opened PyStr

  /** The relation marker searched for, quotes included. */
  const NextRel: string := "rel=\"next\""

  /** The characters removed from both ends of a link target. */
  const AngleBrackets: set<char> := {'<', '>'}

  /** The URL part of one entry: text before its first ';', without enclosing '<'/'>'. */
  function Target(entry: string): string {
    Strip(Before(entry, ';'), AngleBrackets)
  }

  /** The targets of the entries that contain `rel="next"`, in header order. */
  function NextTargets(entries: seq<string>): (links: seq<string>)
    ensures |links| <= |entries|
  {
    if entries == [] then []
    else (if Contains(entries[0], NextRel) then [Target(entries[0])] else []) + NextTargets(entries[1..])
  }

  /** The list comprehension of the exporter: one target per `rel="next"` entry. */
  function NextLinks(header: string): seq<string> {
    NextTargets(Split(header, ','))
  }

  /** `next_link[0] if next_link else None`, over the entries directly: the target of the first kept entry. */
  function FirstNext(entries: seq<string>): Option<string> {
    if entries == [] then None
    else if Contains(entries[0], NextRel) then Some(Target(entries[0]))
    else FirstNext(entries[1..])
  }

  /** FirstNext is the head of the comprehension's list, or None when that list is empty. */
  lemma {:induction false} FirstNextIsHead(entries: seq<string>)
    ensures FirstNext(entries) == if NextTargets(entries) != [] then Some(NextTargets(entries)[0]) else None
  {
    if entries != [] && !Contains(entries[0], NextRel) {
      FirstNextIsHead(entries[1..]);
    }
  }

  /** The URL the exporter follows after a page with this header; None ends the loop. */
  function FollowNext(header: string): Option<string> {
    if Contains(header, NextRel) then FirstNext(Split(header, ',')) else None
  }

  /** A target holds no ';' and neither starts nor ends with an angle bracket. */
  lemma TargetShape(entry: string)
    ensures var url := Target(entry);
      ';' !in url && (url == [] || (url[0] !in AngleBrackets && url[|url| - 1] !in AngleBrackets))
  {
    var b := Before(entry, ';');
    BeforeSpec(entry, ';');
    StripBlock(b, AngleBrackets);
    StripEnds(b, AngleBrackets);
    var i, r := |b| - |TrimLeft(b, AngleBrackets)|, Strip(b, AngleBrackets);
    assert forall k :: 0 <= k < |r| ==> r[k] == b[i..i + |r|][k];
  }

  /** The first entry that mentions `rel="next"` decides the target; later ones are ignored. */
  lemma {:induction false} FirstTarget(entries: seq<string>, k: nat)
    requires k < |entries| && Contains(entries[k], NextRel)
    requires forall j :: 0 <= j < k ==> !Contains(entries[j], NextRel)
    ensures FirstNext(entries) == Some(Target(entries[k]))
    decreases k
  {
    if k > 0 {
      assert !Contains(entries[0], NextRel);
      var rest := entries[1..];
      assert rest[k - 1] == entries[k];
      assert forall j :: 0 <= j < k - 1 ==> rest[j] == entries[j + 1];
      FirstTarget(rest, k - 1);
    }
  }

  /** No entry mentioning `rel="next"` means no target at all. */
  lemma {:induction false} NoTarget(entries: seq<string>)
    requires forall j :: 0 <= j < |entries| ==> !Contains(entries[j], NextRel)
    ensures FirstNext(entries) == None && NextTargets(entries) == []
    decreases |entries|
  {
    if entries != [] {
      NoTarget(entries[1..]);
    }
  }

  /** Some entry mentioning `rel="next"` means some target. */
  lemma {:induction false} SomeTarget(entries: seq<string>, k: nat)
    requires k < |entries| && Contains(entries[k], NextRel)
    ensures FirstNext(entries).Some? && NextTargets(entries) != []
    decreases k
  {
    if !Contains(entries[0], NextRel) {
      SomeTarget(entries[1..], k - 1);
    }
  }

  /** A marker without the separator that occurs in s occurs inside one of the pieces of s. */
  lemma {:induction false} ContainedInSomePiece(s: string, t: string, sep: char) returns (k: nat)
    requires Contains(s, t) && sep !in t
    ensures k < |Split(s, sep)| && Contains(Split(s, sep)[k], t)
    decreases |s|
  {
    var pieces := Split(s, sep);
    if t <= s {
      PrefixOfFirstPiece(s, t, sep);
      k := 0;
    } else {
      var rest := Split(s[1..], sep);
      var j := ContainedInSomePiece(s[1..], t, sep);
      if s[0] == sep {
        k := j + 1;
        assert pieces[k] == rest[j];
      } else if j == 0 {
        k := 0;
        assert pieces[0] == [s[0]] + rest[0];
        assert pieces[0][1..] == rest[0];
      } else {
        k := j;
        assert pieces[k] == rest[j];
      }
    }
  }

  /** A separator-free prefix of s is a prefix of s's first piece. */
  lemma {:induction false} PrefixOfFirstPiece(s: string, t: string, sep: char)
    requires t <= s && sep !in t
    ensures t <= Split(s, sep)[0]
    decreases |s|
  {
    if t != [] {
      assert s[0] == t[0] && s[0] != sep;
      assert t[1..] <= s[1..];
      PrefixOfFirstPiece(s[1..], t[1..], sep);
      assert t == [t[0]] + t[1..];
    }
  }

  /** Whatever a piece contains, the whole string contains. */
  lemma {:induction false} PieceContained(s: string, t: string, sep: char, k: nat)
    requires k < |Split(s, sep)| && Contains(Split(s, sep)[k], t)
    ensures Contains(s, t)
  {
    var p := Split(s, sep)[k];
    var i := ContainsWitness(p, t);
    var off := PieceOffset(s, sep, k);
    forall m | 0 <= m < |t| ensures s[off + i + m] == t[m] {
      assert t[m] == p[i + m];
    }
    assert s[off + i..off + i + |t|] == t;
    ContainsAt(s, t, off + i);
  }

  /** Each piece of a split sits at some position of the original string. */
  lemma {:induction false} PieceOffset(s: string, sep: char, k: nat) returns (off: nat)
    requires k < |Split(s, sep)|
    ensures off + |Split(s, sep)[k]| <= |s| && s[off..off + |Split(s, sep)[k]|] == Split(s, sep)[k]
    decreases |s|
  {
    if s == [] || k == 0 {
      off := 0;
    } else {
      var rest := Split(s[1..], sep);
      var j := if s[0] == sep then k - 1 else k;
      assert Split(s, sep)[k] == rest[j];
      var o := PieceOffset(s[1..], sep, j);
      SliceOfTail(s, o, |rest[j]|);
      off := o + 1;
    }
  }

  /**
   * FollowNext returns a URL, possibly empty, exactly when the header
   * mentions `rel="next"`: the marker has no comma, so some comma-separated
   * entry contains it and the comprehension's list is never empty then.
   * The loop follows that URL only when it is non-empty (`Truthy`).
   */
  lemma NextIffMarker(header: string)
    ensures FollowNext(header).Some? <==> Contains(header, NextRel)
    ensures Contains(header, NextRel) ==> NextLinks(header) != []
  {
    if Contains(header, NextRel) {
      var k := ContainedInSomePiece(header, NextRel, ',');
      SomeTarget(Split(header, ','), k);
    }
  }

  /** The followed URL is the target of the first comma-separated entry mentioning `rel="next"`. */
  lemma FollowsFirstNextEntry(header: string, k: nat)
    requires k < |Split(header, ',')| && Contains(Split(header, ',')[k], NextRel)
    requires forall j :: 0 <= j < k ==> !Contains(Split(header, ',')[j], NextRel)
    ensures FollowNext(header) == Some(Target(Split(header, ',')[k]))
  {
    PieceContained(header, NextRel, ',', k);
    FirstTarget(Split(header, ','), k);
  }

  /** A header that mentions `rel="next"` in none of its entries yields no URL. */
  lemma NoNextEntry(header: string)
    requires forall j :: 0 <= j < |Split(header, ',')| ==> !Contains(Split(header, ',')[j], NextRel)
    ensures FollowNext(header) == None
  {
    NoTarget(Split(header, ','));
  }

  /** A well-formed first entry `<u>;params` yields u itself. */
  lemma TargetOfFirstEntry(u: string, params: string)
    requires ';' !in u && u != [] && u[0] !in AngleBrackets && u[|u| - 1] !in AngleBrackets
    ensures Target("<" + u + ">" + ";" + params) == u
  {
    var s := "<" + u + ">";
    assert ';' !in s;
    BeforeSemicolon(s, params);
    assert s[1..] == u + ">";
    assert TrimLeft(s, AngleBrackets) == TrimLeft(u + ">", AngleBrackets);
    StripClosing(u);
  }

  /** Stripping `v>` where v ends outside the brackets removes exactly the '>'. */
  lemma {:induction false} StripClosing(v: string)
    requires v != [] && v[0] !in AngleBrackets && v[|v| - 1] !in AngleBrackets
    ensures Strip(v + ">", AngleBrackets) == v
  {
    var s := v + ">";
    assert s[0] == v[0];
    assert TrimLeft(s, AngleBrackets) == s;
    assert s[..|s| - 1] == v;
    assert TrimRight(v, AngleBrackets) == v;
  }

  /** The text before the first ';' of `x;rest`, when x has no ';'. */
  lemma {:induction false} BeforeSemicolon(x: string, rest: string)
    requires ';' !in x
    ensures Before(x + ";" + rest, ';') == x
  {
    assert x + ";" + rest == x + [';'] + rest;
    SplitAfterSep(x, rest, ';');
  }

  /**
   * An entry after a comma keeps the space that follows the comma, so its
   * leading '<' is not stripped either: ` <u>;params` yields ` <u`.
   */
  lemma TargetOfLaterEntry(u: string, params: string)
    requires ';' !in u && u != [] && u[|u| - 1] !in AngleBrackets
    ensures Target(" <" + u + ">" + ";" + params) == " <" + u
  {
    var v := " <" + u;
    assert v + ">" == " <" + u + ">";
    assert v[0] == ' ' && v[|v| - 1] == u[|u| - 1];
    assert ';' !in v + ">";
    BeforeSemicolon(v + ">", params);
    StripClosing(v);
  }

  /**
   * A `rel="next"` entry that follows another entry, written `<u>;params`
   * after the comma and its space, makes the exporter follow ` <u`, not u
   * (the usual Shopify header `<p>; rel="previous", <u>; rel="next"`).
   */
  lemma FollowsLaterEntryVerbatim(first: string, u: string, params: string)
    requires ',' !in first && !Contains(first, NextRel)
    requires ',' !in u && ';' !in u && u != [] && u[|u| - 1] !in AngleBrackets
    requires ',' !in params && Contains(params, NextRel)
    ensures FollowNext(first + ", <" + u + ">;" + params) == Some(" <" + u)
  {
    var header := first + ", <" + u + ">;" + params;
    var second := LaterEntry(first, u, params);
    var pieces := Split(header, ',');
    assert pieces[0] == first && pieces[1] == second && Contains(second, NextRel);
    FollowsFirstNextEntry(header, 1);
    TargetOfLaterEntry(u, params);
  }

  /** The header `first, <u>;params` splits into `first` and ` <u>;params`, and the second mentions `rel="next"`. */
  lemma LaterEntry(first: string, u: string, params: string) returns (second: string)
    requires ',' !in first && ',' !in u && ',' !in params && Contains(params, NextRel)
    ensures second == " <" + u + ">" + ";" + params
    ensures Split(first + ", <" + u + ">;" + params, ',') == [first, second]
    ensures Contains(second, NextRel)
  {
    var head := " <" + u + ">" + ";";
    second := head + params;
    assert first + ", <" + u + ">;" + params == first + [','] + second;
    assert ',' !in second;
    TwoPieces(first, second);
    ContainedAfter(head, params, NextRel);
  }

  /** Two separator-free strings joined by ',' split back into the two. */
  lemma TwoPieces(a: string, b: string)
    requires ',' !in a && ',' !in b
    ensures Split(a + [','] + b, ',') == [a, b]
  {
    SplitAfterSep(a, b, ',');
    SplitNoSep(b, ',');
  }

  /** Prefixing text keeps every occurrence. */
  lemma ContainedAfter(x: string, s: string, t: string)
    requires Contains(s, t)
    ensures Contains(x + s, t)
  {
    var i := ContainsWitness(s, t);
    assert (x + s)[|x| + i..|x| + i + |t|] == s[i..i + |t|];
    ContainsAt(x + s, t, |x| + i);
  }
}
