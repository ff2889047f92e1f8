/** Letter case, splitting, joining and trimming, as Go's strings package does it. */
module Strings {

  function LowerChar(c: char): char {
    if 'A' <= c <= 'Z' then c - 'A' + 'a' else c
  }

  function ToLower(w: string): string {
    seq(|w|, i requires 0 <= i < |w| => LowerChar(w[i]))
  }

  /** strings.Split on one character: never empty. */
  function Split(s: string, c: char): (r: seq<string>)
    ensures r != []
  {
    if s == "" then [""]
    else if s[0] == c then [""] + Split(s[1..], c)
    else
      var r := Split(s[1..], c);
      [[s[0]] + r[0]] + r[1..]
  }

  function Join(ss: seq<string>, c: char): string {
    if ss == [] then "" else if |ss| == 1 then ss[0] else ss[0] + [c] + Join(ss[1..], c)
  }

  predicate Free(ss: seq<string>, c: char) {
    forall i :: 0 <= i < |ss| ==> c !in ss[i]
  }

  lemma {:induction false} SplitFree(s: string, c: char)
    ensures Free(Split(s, c), c)
    ensures forall i, x :: 0 <= i < |Split(s, c)| && x in Split(s, c)[i] ==> x in s
    ensures forall i :: 0 <= i < |Split(s, c)| ==> |Split(s, c)[i]| <= |s|
  {
    if s == "" {
    } else {
      SplitFree(s[1..], c);
      assert s == [s[0]] + s[1..];
    }
  }

  lemma {:induction false} JoinSplit(s: string, c: char)
    ensures Join(Split(s, c), c) == s
  {
    if s == "" {
    } else {
      var r := Split(s[1..], c);
      JoinSplit(s[1..], c);
      if s[0] == c {
        assert ([""] + r)[1..] == r;
        assert s == [c] + s[1..];
      } else {
        var r' := Split(s, c);
        assert r'[1..] == r[1..];
        assert s == [s[0]] + s[1..];
      }
    }
  }

  /** Text without the separator in front of the rest joins the rest's first piece. */
  lemma {:induction false} SplitPrefix(a: string, s: string, c: char)
    requires c !in a
    ensures Split(a + s, c) == [a + Split(s, c)[0]] + Split(s, c)[1..]
  {
    if a == "" {
      assert a + s == s;
      assert a + Split(s, c)[0] == Split(s, c)[0];
      assert Split(s, c) == [Split(s, c)[0]] + Split(s, c)[1..];
    } else {
      SplitPrefix(a[1..], s, c);
      assert (a + s)[1..] == a[1..] + s;
      assert a + Split(s, c)[0] == [a[0]] + (a[1..] + Split(s, c)[0]);
    }
  }

  lemma {:induction false} SplitJoin(ss: seq<string>, c: char)
    requires ss != [] && Free(ss, c)
    ensures Split(Join(ss, c), c) == ss
  {
    if |ss| == 1 {
      assert ss[0] + "" == ss[0];
      SplitPrefix(ss[0], "", c);
      assert Split("", c)[1..] == [];
    } else {
      SplitJoin(ss[1..], c);
      var t := [c] + Join(ss[1..], c);
      assert t[1..] == Join(ss[1..], c);
      var p := Split(t, c);
      assert p == [""] + ss[1..];
      assert p[0] == "" && p[1..] == ss[1..];
      SplitPrefix(ss[0], t, c);
      assert ss[0] + p[0] == ss[0];
      assert Join(ss, c) == ss[0] + t;
      assert ss == [ss[0]] + ss[1..];
    }
  }

  lemma {:induction false} JoinSnoc(ss: seq<string>, t: string, c: char)
    requires ss != []
    ensures Join(ss + [t], c) == Join(ss, c) + [c] + t
  {
    assert (ss + [t])[1..] == ss[1..] + [t];
    if |ss| > 1 {
      JoinSnoc(ss[1..], t, c);
    }
  }

  lemma {:induction false} JoinChars(ss: seq<string>, c: char, x: char)
    requires x != c && forall i :: 0 <= i < |ss| ==> x !in ss[i]
    ensures x !in Join(ss, c)
  {
    if |ss| <= 1 {
    } else {
      JoinChars(ss[1..], c, x);
    }
  }

  /** A text is cut at a character in at most one place that leaves none of it on the left. */
  lemma {:induction false} CutUnique(a: string, b: string, a': string, b': string, c: char)
    requires c !in a && c !in a' && a + [c] + b == a' + [c] + b'
    ensures a == a' && b == b'
  {
    if a == "" || a' == "" {
      assert (a + [c] + b)[0] == (a' + [c] + b')[0];
      assert ([c] + b)[1..] == b && ([c] + b')[1..] == b';
      if a == "" && a' == "" {
        assert a + [c] + b == [c] + b && a' + [c] + b' == [c] + b';
      }
    } else {
      assert (a + [c] + b)[0] == a[0] && (a' + [c] + b')[0] == a'[0];
      assert (a + [c] + b)[1..] == a[1..] + [c] + b && (a' + [c] + b')[1..] == a'[1..] + [c] + b';
      CutUnique(a[1..], b, a'[1..], b', c);
      assert a == [a[0]] + a[1..] && a' == [a'[0]] + a'[1..];
    }
  }

  // ----- white space

  /** unicode.IsSpace. */
  predicate IsSpace(c: char) {
    || c == ' ' || ('\t' <= c <= '\r') || c == '\U{85}' || c == '\U{A0}' || c == '\U{1680}'
    || ('\U{2000}' <= c <= '\U{200A}') || c == '\U{2028}' || c == '\U{2029}' || c == '\U{202F}'
    || c == '\U{205F}' || c == '\U{3000}'
  }

  function TrimLeft(s: string): string {
    if s != "" && IsSpace(s[0]) then TrimLeft(s[1..]) else s
  }

  function TrimRight(s: string): string {
    if s != "" && IsSpace(s[|s| - 1]) then TrimRight(s[..|s| - 1]) else s
  }

  function TrimSpace(s: string): string {
    TrimRight(TrimLeft(s))
  }

  lemma {:induction false} TrimLeftShort(s: string)
    ensures |TrimLeft(s)| <= |s| && (|TrimLeft(s)| == |s| ==> TrimLeft(s) == s)
    ensures forall c :: c in TrimLeft(s) ==> c in s
  {
    if s == "" || !IsSpace(s[0]) {
    } else {
      TrimLeftShort(s[1..]);
    }
  }

  lemma {:induction false} TrimRightShort(s: string)
    ensures |TrimRight(s)| <= |s| && (|TrimRight(s)| == |s| ==> TrimRight(s) == s)
    ensures forall c :: c in TrimRight(s) ==> c in s
  {
    if s == "" || !IsSpace(s[|s| - 1]) {
    } else {
      TrimRightShort(s[..|s| - 1]);
    }
  }

  /** Trimming only shortens. */
  lemma TrimShort(s: string)
    ensures |TrimSpace(s)| <= |s| && (|TrimSpace(s)| == |s| ==> TrimSpace(s) == s)
    ensures forall c :: c in TrimSpace(s) ==> c in s
  {
    TrimLeftShort(s);
    TrimRightShort(TrimLeft(s));
  }

  /** A text without white space at its ends is not trimmed. */
  lemma TrimKeeps(s: string)
    requires s == "" || (!IsSpace(s[0]) && !IsSpace(s[|s| - 1]))
    ensures TrimSpace(s) == s
  {}

  // ----- replacing and cutting

  function Replace(s: string, a: char, b: char): string {
    seq(|s|, i requires 0 <= i < |s| => if s[i] == a then b else s[i])
  }

  lemma JoinNext(s: string, a: char, b: char)
    requires s != ""
    ensures Join(Split(s, a), b) == [if s[0] == a then b else s[0]] + Join(Split(s[1..], a), b)
  {
    var r := Split(s[1..], a);
    if s[0] == a {
      assert ([""] + r)[1..] == r;
    } else {
      assert Split(s, a)[0] == [s[0]] + r[0];
      assert Split(s, a)[1..] == r[1..];
    }
  }

  /** Joining the pieces of a split with another separator replaces the separator. */
  lemma {:induction false} JoinSplitReplaces(s: string, a: char, b: char)
    ensures Join(Split(s, a), b) == Replace(s, a, b)
  {
    if s == "" {
    } else {
      JoinSplitReplaces(s[1..], a, b);
      JoinNext(s, a, b);
      assert Replace(s, a, b) == [if s[0] == a then b else s[0]] + Replace(s[1..], a, b);
    }
  }

  function CutSlash(s: string): string {
    if s != "" && s[0] == '/' then s[1..] else s
  }
}
