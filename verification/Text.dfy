/** Trimming, shared by rule patterns, counter keys and forwarded headers. */
module Text {

  datatype Option<+T> = None | Some(value: T)

  /** The code points Go's unicode.IsSpace accepts. */
  const SPACES: set<char> := {
    '\t', '\n', '\U{000B}', '\U{000C}', '\r', ' ', '\U{0085}', '\U{00A0}', '\U{1680}',
    '\U{2000}', '\U{2001}', '\U{2002}', '\U{2003}', '\U{2004}', '\U{2005}', '\U{2006}',
    '\U{2007}', '\U{2008}', '\U{2009}', '\U{200A}', '\U{2028}', '\U{2029}', '\U{202F}',
    '\U{205F}', '\U{3000}' }

  function TrimLeft(s: string, cut: set<char>): (r: string)
    ensures r != [] ==> r[0] !in cut
  {
    if s != [] && s[0] in cut then TrimLeft(s[1..], cut) else s
  }

  function TrimRight(s: string, cut: set<char>): (r: string)
    ensures r <= s
    ensures r != [] ==> r[|r| - 1] !in cut
  {
    if s != [] && s[|s| - 1] in cut then TrimRight(s[..|s| - 1], cut) else s
  }

  function Trim(s: string, cut: set<char>): (r: string)
    ensures r != [] ==> r[0] !in cut && r[|r| - 1] !in cut
  {
    TrimRight(TrimLeft(s, cut), cut)
  }

  function TrimSpace(s: string): (trimmed: string) {
    Trim(s, SPACES)
  }

  predicate AllIn(s: string, cut: set<char>) {
    forall i :: 0 <= i < |s| ==> s[i] in cut
  }

  lemma {:induction false} TrimLeftCuts(s: string, cut: set<char>) returns (i: nat)
    ensures i <= |s| && TrimLeft(s, cut) == s[i..] && AllIn(s[..i], cut)
  {
    i := 0;
    if s != [] && s[0] in cut {
      var j := TrimLeftCuts(s[1..], cut);
      i := j + 1;
      assert s[1..][j..] == s[i..];
      assert s[..i] == [s[0]] + s[1..][..j];
    }
  }

  lemma {:induction false} TrimRightCuts(s: string, cut: set<char>)
    ensures AllIn(s[|TrimRight(s, cut)|..], cut)
  {
    if s != [] && s[|s| - 1] in cut {
      TrimRightCuts(s[..|s| - 1], cut);
      var r := TrimRight(s, cut);
      assert s[|r|..] == s[..|s| - 1][|r|..] + [s[|s| - 1]];
    }
  }

  /** Trimming cuts blanks at both ends and nothing else: what is left is the
      middle of the string, and only blanks were around it. */
  lemma {:induction false} TrimCutsOnlyBlanks(s: string, cut: set<char>) returns (i: nat, j: nat)
    ensures i <= j <= |s| && Trim(s, cut) == s[i..j]
    ensures AllIn(s[..i], cut) && AllIn(s[j..], cut)
  {
    i := TrimLeftCuts(s, cut);
    TrimRightCuts(s[i..], cut);
    j := i + |Trim(s, cut)|;
    assert s[j..] == s[i..][|Trim(s, cut)|..];
  }

  /** Tab to carriage return, space, next line, no-break space, and the separators
      of the Unicode category Z. */
  lemma {:induction false} SpacesAre(c: char)
    ensures c in SPACES <==>
              var n := c as int;
              || 9 <= n <= 13 || n == 32 || n == 133 || n == 160 || n == 0x1680
              || 0x2000 <= n <= 0x200A || n == 0x2028 || n == 0x2029 || n == 0x202F || n == 0x205F || n == 0x3000
  {
  }

  lemma {:induction false} TrimLeftAround(l: string, s: string, cut: set<char>)
    requires AllIn(l, cut)
    ensures TrimLeft(l + s, cut) == TrimLeft(s, cut)
  {
    if l == "" {
      assert l + s == s;
    } else {
      assert (l + s)[1..] == l[1..] + s;
      TrimLeftAround(l[1..], s, cut);
    }
  }

  lemma {:induction false} TrimRightAround(s: string, r: string, cut: set<char>)
    requires AllIn(r, cut)
    ensures TrimRight(s + r, cut) == TrimRight(s, cut)
  {
    if r == "" {
      assert s + r == s;
    } else {
      assert (s + r)[..|s + r| - 1] == s + r[..|r| - 1];
      TrimRightAround(s, r[..|r| - 1], cut);
    }
  }

  /** Trimming takes off whatever blanks are put around a text that neither starts
      nor ends with one. */
  lemma {:induction false} TrimAround(l: string, core: string, r: string, cut: set<char>)
    requires AllIn(l, cut) && AllIn(r, cut)
    requires core != "" ==> core[0] !in cut && core[|core| - 1] !in cut
    ensures Trim(l + core + r, cut) == core
  {
    assert l + core + r == l + (core + r);
    TrimLeftAround(l, core + r, cut);
    if core == "" {
      assert core + r == r + "";
      TrimLeftAround(r, "", cut);
    } else {
      assert (core + r)[0] == core[0];
      TrimRightAround(core, r, cut);
    }
  }

  /** Nothing is left exactly of a text that is all blanks. */
  lemma {:induction false} TrimsToNothing(s: string, cut: set<char>)
    ensures Trim(s, cut) == "" <==> AllIn(s, cut)
  {
    var i, j := TrimCutsOnlyBlanks(s, cut);
    if Trim(s, cut) == "" {
      forall k | 0 <= k < |s| ensures s[k] in cut {
        if k < i {
          assert s[..i][k] == s[k];
        } else {
          assert s[j..][k - j] == s[k];
        }
      }
    } else {
      assert s[i] == Trim(s, cut)[0];
    }
  }
}
