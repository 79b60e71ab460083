/** The few Python `str` operations the watcher relies on, as Dafny functions
    over `seq<char>`: the substring test `p in s`, `s.split(sep)` with a
    one-character separator, and `s.strip()` with no argument. Each comes with
    an independent characterisation and the lemmas the watcher's proofs use. */
module PyStr {

  // ---------------------------------------------------------------------------
  // Substring test: Python's `p in s`
  // ---------------------------------------------------------------------------

  /** `p` is a prefix of `s`. */
  predicate StartsWith(s: string, p: string) {
    |p| <= |s| && s[..|p|] == p
  }

  /** Python's `p in s` on strings, scanning `s` from the left. */
  predicate Contains(s: string, p: string)
    decreases |s|
  {
    StartsWith(s, p) || (|s| > 0 && Contains(s[1..], p))
  }

  /** `p` occurs in `s` starting at offset `i`. */
  ghost predicate OccursAt(s: string, p: string, i: int) {
    0 <= i && i + |p| <= |s| && s[i..i + |p|] == p
  }

  /** The scan agrees with the offset definition of a substring, both ways. */
  lemma {:induction false} ContainsIffOccurs(s: string, p: string)
    ensures Contains(s, p) <==> exists i :: OccursAt(s, p, i)
    decreases |s|
  {
    if Contains(s, p) {
      if StartsWith(s, p) {
        assert OccursAt(s, p, 0);
      } else {
        ContainsIffOccurs(s[1..], p);
        var i :| OccursAt(s[1..], p, i);
        assert s[1..][i..i + |p|] == s[i + 1..i + 1 + |p|];
        assert OccursAt(s, p, i + 1);
      }
    }
    if exists i :: OccursAt(s, p, i) {
      var i :| OccursAt(s, p, i);
      if i > 0 {
        assert s[1..][i - 1..i - 1 + |p|] == s[i..i + |p|];
        assert OccursAt(s[1..], p, i - 1);
        ContainsIffOccurs(s[1..], p);
      } else {
        assert StartsWith(s, p);
      }
    }
  }

  /** A string contains every string it is built around. */
  lemma ContainsInfix(a: string, p: string, b: string)
    ensures Contains(a + p + b, p)
  {
    var s := a + p + b;
    assert s[|a|..|a| + |p|] == p;
    assert OccursAt(s, p, |a|);
    ContainsIffOccurs(s, p);
  }

  /** What a slice of `s` contains, `s` contains too. */
  lemma ContainsSlice(s: string, lo: nat, hi: nat, p: string)
    requires lo <= hi <= |s|
    requires Contains(s[lo..hi], p)
    ensures Contains(s, p)
  {
    ContainsIffOccurs(s[lo..hi], p);
    var i :| OccursAt(s[lo..hi], p, i);
    var t := s[lo..hi];
    assert t[i..i + |p|] == p;
    forall k | 0 <= k < |p| ensures s[lo + i + k] == p[k] {
      assert t[i..i + |p|][k] == t[i + k] == s[lo + i + k];
    }
    assert s[lo + i..lo + i + |p|] == p;
    assert OccursAt(s, p, lo + i);
    ContainsIffOccurs(s, p);
  }

  /** Every character of a contained string is a character of `s`. */
  lemma ContainsChar(s: string, p: string, k: nat)
    requires Contains(s, p) && k < |p|
    ensures p[k] in s
  {
    ContainsIffOccurs(s, p);
    var i :| OccursAt(s, p, i);
    assert p[k] == s[i..i + |p|][k] == s[i + k];
  }

  // ---------------------------------------------------------------------------
  // Splitting: Python's `s.split(sep)` for a single-character `sep`
  // ---------------------------------------------------------------------------

  /** Python's `s.split(sep)`: the pieces between the occurrences of `sep`, so
      that `n` separators give `n + 1` pieces, empty ones included. */
  function Split(s: string, sep: char): (r: seq<string>)
    ensures |r| >= 1
    ensures r[0] <= s
    ensures forall k :: 0 <= k < |r| ==> sep !in r[k]
    ensures |r| == 1 <==> sep !in s
    decreases |s|
  {
    if |s| == 0 then [""]
    else
      var rest := Split(s[1..], sep);
      if s[0] == sep then [""] + rest
      else [[s[0]] + rest[0]] + rest[1..]
  }

  /** Python's `sep.join(pieces)`, the inverse of `Split`. */
  function Join(pieces: seq<string>, sep: char): string
    requires |pieces| >= 1
  {
    if |pieces| == 1 then pieces[0]
    else pieces[0] + [sep] + Join(pieces[1..], sep)
  }

  /** Putting a character in front of the first piece puts it in front of the join. */
  lemma JoinCons(c: char, pieces: seq<string>, sep: char)
    requires |pieces| >= 1
    ensures Join([[c] + pieces[0]] + pieces[1..], sep) == [c] + Join(pieces, sep)
  {
    var r := [[c] + pieces[0]] + pieces[1..];
    assert r[1..] == pieces[1..];
  }

  /** Joining the pieces back with the separator gives the original text. */
  lemma {:induction false} JoinSplit(s: string, sep: char)
    ensures Join(Split(s, sep), sep) == s
    decreases |s|
  {
    if |s| > 0 {
      var rest := Split(s[1..], sep);
      JoinSplit(s[1..], sep);
      if s[0] == sep {
        assert ([""] + rest)[1..] == rest;
      } else {
        JoinCons(s[0], rest, sep);
        assert [s[0]] + s[1..] == s;
      }
    }
  }

  /** A text without the separator is one piece. */
  lemma {:induction false} SplitNoSep(s: string, sep: char)
    requires sep !in s
    ensures Split(s, sep) == [s]
  {
    assert |Split(s, sep)| == 1;
    JoinSplit(s, sep);
  }

  /** Splitting at the first separator: the head piece, then the split of the rest. */
  lemma {:induction false} SplitFirst(x: string, sep: char, y: string)
    requires sep !in x
    ensures Split(x + [sep] + y, sep) == [x] + Split(y, sep)
    decreases |x|
  {
    var s := x + [sep] + y;
    if |x| == 0 {
      assert s[1..] == y;
    } else {
      assert s[1..] == x[1..] + [sep] + y;
      SplitFirst(x[1..], sep, y);
      assert [x[0]] + x[1..] == x;
    }
  }

  /** Splitting a join of separator-free pieces gives those pieces back. */
  lemma {:induction false} SplitJoin(pieces: seq<string>, sep: char)
    requires |pieces| >= 1
    requires forall k :: 0 <= k < |pieces| ==> sep !in pieces[k]
    ensures Split(Join(pieces, sep), sep) == pieces
    decreases |pieces|
  {
    if |pieces| == 1 {
      SplitNoSep(pieces[0], sep);
    } else {
      SplitJoin(pieces[1..], sep);
      SplitFirst(pieces[0], sep, Join(pieces[1..], sep));
    }
  }

  /** Splitting at the first separator, given by its index. */
  lemma SplitAt(s: string, sep: char, i: nat)
    requires i < |s| && s[i] == sep && sep !in s[..i]
    ensures Split(s, sep) == [s[..i]] + Split(s[i + 1..], sep)
  {
    assert s == s[..i] + [sep] + s[i + 1..];
    SplitFirst(s[..i], sep, s[i + 1..]);
  }

  /** The first piece of a split ends at the first separator, or at the end. */
  lemma SplitHead(s: string, sep: char, j: nat)
    requires j <= |s| && sep !in s[..j] && (j == |s| || s[j] == sep)
    ensures Split(s, sep)[0] == s[..j]
  {
    if j == |s| {
      assert s[..j] == s;
      SplitNoSep(s, sep);
    } else {
      SplitAt(s, sep, j);
    }
  }

  /** The second piece of a split is the text between the first and the second
      separator, or between the first separator and the end when there is no
      second one. */
  lemma SplitSecond(s: string, sep: char, i: nat, j: nat)
    requires i < |s| && s[i] == sep && sep !in s[..i]
    requires i < j <= |s| && sep !in s[i + 1..j] && (j == |s| || s[j] == sep)
    ensures |Split(s, sep)| >= 2 && Split(s, sep)[1] == s[i + 1..j]
  {
    SplitAt(s, sep, i);
    var rest := s[i + 1..];
    var n := j - (i + 1);
    assert rest[..n] == s[i + 1..j];
    assert n < |rest| ==> rest[n] == s[j];
    SplitHead(rest, sep, n);
  }

  /** A piece that contains `p` means the whole text contains `p`. */
  lemma {:induction false} PieceContains(s: string, sep: char, k: nat, p: string)
    requires k < |Split(s, sep)| && Contains(Split(s, sep)[k], p)
    ensures Contains(s, p)
    decreases |s|
  {
    if |s| > 0 {
      var rest := Split(s[1..], sep);
      if k == 0 {
        var head := Split(s, sep)[0];
        assert head == s[..|head|];
        ContainsSlice(s, 0, |head|, p);
      } else {
        if s[0] == sep {
          assert Split(s, sep)[k] == rest[k - 1];
          PieceContains(s[1..], sep, k - 1, p);
        } else {
          assert Split(s, sep)[k] == rest[k];
          PieceContains(s[1..], sep, k, p);
        }
        assert s[1..] == s[1..|s|];
        ContainsSlice(s, 1, |s|, p);
      }
    }
  }

  /** A separator-free prefix of `s` is a prefix of its first piece. */
  lemma {:induction false} PrefixOfFirstPiece(s: string, sep: char, p: string)
    requires p <= s && sep !in p
    ensures p <= Split(s, sep)[0]
    decreases |s|
  {
    if |p| > 0 {
      assert s[0] == p[0];
      PrefixOfFirstPiece(s[1..], sep, p[1..]);
    }
  }

  /** A separator-free string that `s` contains lies inside one of its pieces. */
  lemma {:induction false} ContainsInSomePiece(s: string, sep: char, p: string)
    requires Contains(s, p) && sep !in p
    ensures exists k :: 0 <= k < |Split(s, sep)| && Contains(Split(s, sep)[k], p)
    decreases |s|
  {
    var r := Split(s, sep);
    if StartsWith(s, p) {
      assert s[..|p|] == p;
      PrefixOfFirstPiece(s, sep, p);
      assert r[0][..|p|] == p;
      assert Contains(r[0], p);
    } else {
      var rest := Split(s[1..], sep);
      ContainsInSomePiece(s[1..], sep, p);
      var k :| 0 <= k < |rest| && Contains(rest[k], p);
      if s[0] == sep {
        assert r[k + 1] == rest[k];
      } else if k > 0 {
        assert r[k] == rest[k];
      } else {
        assert r[0][1..] == rest[0];
        assert Contains(r[0], p);
      }
    }
  }

  // ---------------------------------------------------------------------------
  // Trimming: Python's `s.strip()` with no argument
  // ---------------------------------------------------------------------------

  /** Python's `str.isspace()` for one character: tab to carriage return, the
      four information separators and space, NEL, no-break space and the
      Unicode space separators. */
  predicate IsSpace(c: char) {
    ('\t' <= c <= '\r') || ('\U{001C}' <= c <= ' ')
    || c == '\U{0085}' || c == '\U{00A0}' || c == '\U{1680}'
    || ('\U{2000}' <= c <= '\U{200A}') || c == '\U{2028}' || c == '\U{2029}'
    || c == '\U{202F}' || c == '\U{205F}' || c == '\U{3000}'
  }

  /** The index of the first non-whitespace character of `s` at or after `i`,
      or `|s|` when there is none. */
  function SkipSpaces(s: string, i: nat): (n: nat)
    requires i <= |s|
    ensures i <= n <= |s|
    ensures forall k :: i <= k < n ==> IsSpace(s[k])
    ensures n == |s| || !IsSpace(s[n])
    decreases |s| - i
  {
    if i < |s| && IsSpace(s[i]) then SkipSpaces(s, i + 1) else i
  }

  /** The end of `s[lo..j]` once its trailing whitespace is dropped. */
  function BackSkipSpaces(s: string, lo: nat, j: nat): (m: nat)
    requires lo <= j <= |s|
    ensures lo <= m <= j
    ensures forall k :: m <= k < j ==> IsSpace(s[k])
    ensures m == lo || !IsSpace(s[m - 1])
    decreases j
  {
    if lo < j && IsSpace(s[j - 1]) then BackSkipSpaces(s, lo, j - 1) else j
  }

  /** `t` is the slice of `s` at offset `a` with nothing but whitespace around it. */
  ghost predicate SpaceAround(s: string, a: int, t: string) {
    0 <= a && a + |t| <= |s| && s[a..a + |t|] == t
    && (forall k :: 0 <= k < a ==> IsSpace(s[k]))
    && (forall k :: a + |t| <= k < |s| ==> IsSpace(s[k]))
  }

  /** Python's `s.strip()`: `s` without leading and trailing whitespace. */
  function Strip(s: string): (r: string)
    ensures exists a :: SpaceAround(s, a, r)
    ensures r == [] || (!IsSpace(r[0]) && !IsSpace(r[|r| - 1]))
  {
    var a := SkipSpaces(s, 0);
    var b := BackSkipSpaces(s, a, |s|);
    assert SpaceAround(s, a, s[a..b]);
    s[a..b]
  }

  /** The two properties in `Strip`'s contract determine its result. */
  lemma StripUnique(s: string, a: int, t: string)
    requires SpaceAround(s, a, t)
    requires t == [] || (!IsSpace(t[0]) && !IsSpace(t[|t| - 1]))
    ensures t == Strip(s)
  {
    var r := Strip(s);
    var b :| SpaceAround(s, b, r);
    if t != [] {
      assert t[0] == s[a] && t[|t| - 1] == s[a + |t| - 1];
    }
    if r != [] {
      assert r[0] == s[b] && r[|r| - 1] == s[b + |r| - 1];
    }
  }
}
