/** Python's `str.strip()` with no argument: remove leading and trailing whitespace. */
module Text {

  /** `str.isspace()` for one character: the characters Python counts as whitespace. */
  predicate IsSpace(c: char) {
    ('\t' <= c <= '\r') || ('\U{1C}' <= c <= ' ') || c == '\U{85}' || c == '\U{A0}'
    || c == '\U{1680}' || ('\U{2000}' <= c <= '\U{200A}') || c == '\U{2028}' || c == '\U{2029}'
    || c == '\U{202F}' || c == '\U{205F}' || c == '\U{3000}'
  }

  predicate AllSpace(s: string) {
    forall i :: 0 <= i < |s| ==> IsSpace(s[i])
  }

  /** How many whitespace characters `s` starts with. */
  function Lead(s: string): (n: nat)
    ensures n <= |s|
  {
    if s != [] && IsSpace(s[0]) then 1 + Lead(s[1..]) else 0
  }

  /** How many whitespace characters `s` ends with. */
  function Trail(s: string): (n: nat)
    ensures n <= |s|
  {
    if s != [] && IsSpace(s[|s| - 1]) then 1 + Trail(s[..|s| - 1]) else 0
  }

  /** `s.strip()`. */
  function Strip(s: string): (r: string)
    ensures |r| <= |s|
  {
    var t := s[Lead(s)..];
    t[..|t| - Trail(t)]
  }

  /** `Lead(s)` is the length of the whitespace run that starts `s`: all of it whitespace, and the next character not. */
  lemma {:induction false} LeadShape(s: string)
    ensures AllSpace(s[..Lead(s)])
    ensures Lead(s) < |s| ==> !IsSpace(s[Lead(s)])
  {
    if s != [] && IsSpace(s[0]) {
      var n := Lead(s[1..]);
      LeadShape(s[1..]);
      assert Lead(s) == n + 1;
      assert s[1..][..n] == s[1..n + 1];
      assert s[..Lead(s)] == [s[0]] + s[1..n + 1];
    }
  }

  /** `Trail(s)` is the length of the whitespace run that ends `s`: all of it whitespace, and the character before it not. */
  lemma {:induction false} TrailShape(s: string)
    ensures AllSpace(s[|s| - Trail(s)..])
    ensures Trail(s) < |s| ==> !IsSpace(s[|s| - 1 - Trail(s)])
  {
    if s != [] && IsSpace(s[|s| - 1]) {
      var u := s[..|s| - 1];
      var n := Trail(u);
      TrailShape(u);
      assert Trail(s) == n + 1;
      var k := |u| - n;
      forall i | 0 <= i < |s[k..]| ensures IsSpace(s[k..][i]) {
        if k + i < |u| {
          assert s[k..][i] == u[k..][i];
        }
      }
    }
  }

  /**
   * `s.strip()` is the part of `s` between its leading and its trailing run
   * of whitespace: it starts right after the leading run, only whitespace
   * follows it, it neither starts nor ends with whitespace, and it is empty
   * exactly when `s` is all whitespace.
   */
  lemma StripShape(s: string)
    ensures var r := Strip(s);
      (r == [] <==> AllSpace(s))
      && (r != [] ==> !IsSpace(r[0]) && !IsSpace(r[|r| - 1]))
      && Lead(s) + |r| <= |s| && r == s[Lead(s)..Lead(s) + |r|]
      && AllSpace(s[..Lead(s)]) && AllSpace(s[Lead(s) + |r|..])
  {
    StripSlices(s);
    LeadShape(s);
    TrailShape(s[Lead(s)..]);
    StripEnds(s);
  }

  /** The strip is empty exactly when `s` is all whitespace, and otherwise starts and ends with a non-whitespace character. */
  lemma StripEnds(s: string)
    ensures var r := Strip(s);
      (r == [] <==> AllSpace(s)) && (r != [] ==> !IsSpace(r[0]) && !IsSpace(r[|r| - 1]))
  {
    var a := Lead(s);
    var t := s[a..];
    var r := Strip(s);
    StripSlices(s);
    LeadShape(s);
    // What is left after the leading run starts with a character that is not whitespace.
    assert t != [] ==> t[0] == s[a] && Trail(t) < |t| by {
      if t != [] { TrailShape(t); }
    }
    if r == [] {
      assert s[..a] == s;
    } else {
      TrailShape(t);
      assert r[0] == s[a];
      assert r[|r| - 1] == t[|t| - 1 - Trail(t)];
    }
  }

  /** Where `s.strip()` sits in `s`, and what follows it. */
  lemma StripSlices(s: string)
    ensures var a, r := Lead(s), Strip(s);
      a + |r| <= |s| && r == s[a..a + |r|]
      && s[a + |r|..] == s[a..][|s[a..]| - Trail(s[a..])..]
  {
  }

  /** The line terminator `readline()` keeps is removed by `strip()`: `(l + "\n").strip() == l.strip()`. */
  lemma StripDropsNewline(l: string)
    ensures Strip(l + ['\n']) == Strip(l)
  {
    var s := l + ['\n'];
    if AllSpace(l) {
      assert AllSpace(s) by {
        forall i | 0 <= i < |s| ensures IsSpace(s[i]) {
          if i < |l| { assert s[i] == l[i]; }
        }
      }
      StripEnds(s);
      StripEnds(l);
    } else {
      LeadIgnoresTail(l, '\n');
      var a := Lead(l);
      var t := l[a..];
      assert s[a..] == t + ['\n'];
      assert Trail(t + ['\n']) == 1 + Trail(t) by {
        assert (t + ['\n'])[..|t + ['\n']| - 1] == t;
      }
    }
  }

  /** Past a character that is not whitespace, more text does not change the leading run. */
  lemma {:induction false} LeadIgnoresTail(l: string, c: char)
    requires !AllSpace(l)
    ensures Lead(l + [c]) == Lead(l)
  {
    if IsSpace(l[0]) {
      assert !AllSpace(l[1..]) by {
        assert forall i :: 0 <= i < |l| - 1 ==> l[1..][i] == l[i + 1];
      }
      LeadIgnoresTail(l[1..], c);
      assert (l + [c])[1..] == l[1..] + [c];
    }
  }

  /** A bare "\n" strips to the empty string. */
  lemma StripBareNewline()
    ensures Strip(['\n']) == []
  {
    StripShape(['\n']);
    assert AllSpace(['\n']);
  }
}
