/**
  Strings as the Python sources handle them: whitespace trimming, substrings and joining.
 */
module Text {

  /** The code points for which Python's str.isspace holds. */
  predicate IsSpace(c: char) {
    var n := c as int;
    9 <= n <= 13 || 28 <= n <= 32 || n == 133 || n == 160 || n == 5760
    || 8192 <= n <= 8202 || n == 8232 || n == 8233 || n == 8239 || n == 8287 || n == 12288
  }

  /** The White_Space characters of Unicode and the four ASCII separators, one by one. */
  lemma IsSpaceExactly()
    ensures forall c: char | c as int < 128 ::
              IsSpace(c) <==> c in ['\t', '\n', 11 as char, 12 as char, '\r', 28 as char, 29 as char, 30 as char,
                                    31 as char, ' ']
    ensures forall c: char | 128 <= c as int ::
              IsSpace(c) <==> c as int in [133, 160, 5760, 8192, 8193, 8194, 8195, 8196, 8197, 8198, 8199, 8200,
                                           8201, 8202, 8232, 8233, 8239, 8287, 12288]
  {
  }

  predicate Blank(s: string) {
    forall i | 0 <= i < |s| :: IsSpace(s[i])
  }

  /** No whitespace at either end. */
  predicate Tight(s: string) {
    s == "" || (!IsSpace(s[0]) && !IsSpace(s[|s| - 1]))
  }

  function TrimLeft(s: string): (r: string)
    ensures |r| <= |s|
  {
    if s != "" && IsSpace(s[0]) then TrimLeft(s[1..]) else s
  }

  function TrimRight(s: string): (r: string)
    ensures |r| <= |s|
  {
    if s != "" && IsSpace(s[|s| - 1]) then TrimRight(s[..|s| - 1]) else s
  }

  /** Python's str.strip with no argument. */
  function Trim(s: string): (r: string)
    ensures |r| <= |s|
  {
    TrimRight(TrimLeft(s))
  }

  lemma {:induction false} TrimLeftCuts(s: string)
    ensures var r := TrimLeft(s);
            s == s[..|s| - |r|] + r && Blank(s[..|s| - |r|]) && (r == "" || !IsSpace(r[0]))
  {
    hide IsSpace;
    if s != "" && IsSpace(s[0]) {
      TrimLeftCuts(s[1..]);
      var n := |s| - |TrimLeft(s)|;
      assert s[..n] == [s[0]] + s[1..][..n - 1];
      assert s == [s[0]] + s[1..];
    }
  }

  lemma {:induction false} TrimRightCuts(s: string)
    ensures var r := TrimRight(s);
            s == r + s[|r|..] && Blank(s[|r|..]) && (r == "" || !IsSpace(r[|r| - 1]))
  {
    hide IsSpace, Blank;
    if s != "" && IsSpace(s[|s| - 1]) {
      var t, last := s[..|s| - 1], [s[|s| - 1]];
      TrimRightCuts(t);
      var r := TrimRight(t);
      BlankAppend(t[|r|..], last);
      assert s == t + last;
      assert s[|r|..] == t[|r|..] + last;
      assert r + (t[|r|..] + last) == (r + t[|r|..]) + last;
    } else {
      NothingIsBlank();
      assert s + s[|s|..] == s && s[|s|..] == "";
    }
  }

  lemma BlankAppend(a: string, b: string)
    requires Blank(a) && |b| == 1 && IsSpace(b[0])
    ensures Blank(a + b)
  {
  }

  lemma NothingIsBlank()
    ensures Blank("")
  {
  }

  lemma CutTwice(s: string, pre: string, l: string, r: string, post: string)
    requires s == pre + l && l == r + post
    requires (l == "" || !IsSpace(l[0])) && (r == "" || !IsSpace(r[|r| - 1]))
    ensures s == pre + r + post && Tight(r)
  {
    hide IsSpace;
    assert pre + (r + post) == pre + r + post;
    if r != "" {
      assert (r + post)[0] == r[0];
    }
  }

  /** Trimming cuts blanks off both ends, and leaves none there. */
  lemma TrimCuts(s: string) returns (pre: string, post: string)
    ensures s == pre + Trim(s) + post && Blank(pre) && Blank(post) && Tight(Trim(s))
  {
    hide IsSpace, Blank, Tight, TrimLeft, TrimRight;
    var l := TrimLeft(s);
    var r := TrimRight(l);
    TrimLeftCuts(s);
    TrimRightCuts(l);
    pre, post := s[..|s| - |l|], l[|r|..];
    CutTwice(s, pre, l, r, post);
  }

  lemma TrimIs(s: string)
    requires Tight(s)
    ensures Trim(s) == s
  {
  }

  lemma {:induction false} TrimLeftAbsorbs(pre: string, s: string)
    requires Blank(pre)
    ensures TrimLeft(pre + s) == TrimLeft(s)
  {
    if pre == "" {
      assert pre + s == s;
    } else {
      assert (pre + s)[1..] == pre[1..] + s;
      TrimLeftAbsorbs(pre[1..], s);
    }
  }

  lemma {:induction false} TrimRightAbsorbs(s: string, post: string)
    requires Blank(post)
    ensures TrimRight(s + post) == TrimRight(s)
  {
    if post == "" {
      assert s + post == s;
    } else {
      var n := |post| - 1;
      assert (s + post)[..|s + post| - 1] == s + post[..n];
      TrimRightAbsorbs(s, post[..n]);
    }
  }

  lemma {:induction false} TrimLeftKeepsTail(s: string, post: string)
    requires TrimLeft(s) != ""
    ensures TrimLeft(s + post) == TrimLeft(s) + post
  {
    if IsSpace(s[0]) {
      assert (s + post)[1..] == s[1..] + post;
      TrimLeftKeepsTail(s[1..], post);
    }
  }

  lemma TrimAbsorbsBlanks(pre: string, s: string, post: string)
    requires Blank(pre) && Blank(post)
    ensures Trim(pre + s + post) == Trim(s)
  {
    assert pre + s + post == pre + (s + post);
    TrimLeftAbsorbs(pre, s + post);
    if TrimLeft(s) == "" {
      TrimLeftCuts(s);
      TrimLeftAbsorbs(s, post);
      TrimLeftAbsorbs(post, "");
      assert post + "" == post;
    } else {
      TrimLeftKeepsTail(s, post);
      TrimRightAbsorbs(TrimLeft(s), post);
    }
  }

  /** Whether needle is a substring of s. */
  predicate Occurs(needle: string, s: string) {
    exists i | 0 <= i <= |s| :: needle <= s[i..]
  }

  lemma OccursInPart(needle: string, pre: string, s: string, post: string)
    requires Occurs(needle, s)
    ensures Occurs(needle, pre + s + post)
  {
    var i :| 0 <= i <= |s| && needle <= s[i..];
    assert (pre + s + post)[|pre| + i..] == s[i..] + post;
  }

  predicate ColonFree(s: string) {
    forall i | 0 <= i < |s| :: s[i] != ':'
  }

  /** Python's sep.join(parts), for a non-empty list of parts. */
  function Join(parts: seq<string>, sep: string): string
    requires |parts| > 0
  {
    if |parts| == 1 then parts[0] else parts[0] + (sep + Join(parts[1..], sep))
  }

  lemma JoinPrepend(pre: string, parts: seq<string>, sep: string)
    requires |parts| > 0
    ensures Join([pre + parts[0]] + parts[1..], sep) == pre + Join(parts, sep)
  {
    var grown := [pre + parts[0]] + parts[1..];
    assert grown[1..] == parts[1..];
    if |parts| > 1 {
      var tail := sep + Join(parts[1..], sep);
      assert (pre + parts[0]) + tail == pre + (parts[0] + tail);
    }
  }

  lemma OccursExactly(needle: string, s: string)
    ensures Occurs(needle, s) <==> exists pre, post :: s == pre + needle + post
  {
    if Occurs(needle, s) {
      var i :| 0 <= i <= |s| && needle <= s[i..];
      assert s == s[..i] + needle + s[i + |needle|..];
    }
    if pre, post :| s == pre + needle + post {
      assert s[|pre|..] == needle + post;
    }
  }
}
