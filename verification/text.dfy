/** The string operations the engine borrows from Python's `str`:
    `strip()`, `split(sep)`, `lower()`, the `in` substring test, and the
    code-point order used for `ORDER BY quarter` and `MAX(quarter)`. */
module Text {
  import opened Wrappers

  /** Exactly the characters for which Python's `str.isspace()` holds. */
  const Whitespace: set<char> := {
    '\t', '\n', '\U{000B}', '\U{000C}', '\r',
    '\U{001C}', '\U{001D}', '\U{001E}', '\U{001F}', ' ',
    '\U{0085}', '\U{00A0}', '\U{1680}',
    '\U{2000}', '\U{2001}', '\U{2002}', '\U{2003}', '\U{2004}', '\U{2005}',
    '\U{2006}', '\U{2007}', '\U{2008}', '\U{2009}', '\U{200A}',
    '\U{2028}', '\U{2029}', '\U{202F}', '\U{205F}', '\U{3000}'
  }

  predicate IsSpace(c: char) {
    c in Whitespace
  }

  predicate AllSpace(s: string) {
    forall i | 0 <= i < |s| :: IsSpace(s[i])
  }

  /** Neither end of `s` is whitespace: what `strip()` leaves behind. */
  predicate IsStripped(s: string) {
    |s| == 0 || (!IsSpace(s[0]) && !IsSpace(s[|s| - 1]))
  }

  /** Length of the whitespace run at the start of `s`. */
  function LeadingSpace(s: string): (n: nat)
    ensures n <= |s|
    ensures AllSpace(s[..n])
    ensures n < |s| ==> !IsSpace(s[n])
  {
    if |s| > 0 && IsSpace(s[0]) then
      var m := LeadingSpace(s[1..]);
      assert s[..m + 1] == [s[0]] + s[1..][..m];
      m + 1
    else 0
  }

  /** Length of the whitespace run at the end of `s`. */
  function TrailingSpace(s: string): (n: nat)
    ensures n <= |s|
    ensures AllSpace(s[|s| - n..])
    ensures n < |s| ==> !IsSpace(s[|s| - n - 1])
  {
    if |s| > 0 && IsSpace(s[|s| - 1]) then
      var m := TrailingSpace(s[..|s| - 1]);
      assert s[|s| - (m + 1)..] == s[..|s| - 1][|s| - 1 - m..] + [s[|s| - 1]];
      m + 1
    else 0
  }

  /** Python's `s.strip()`: removes leading and trailing whitespace. */
  function Strip(s: string): (r: string)
    ensures IsStripped(r)
    ensures |r| <= |s|
    ensures r == [] <==> AllSpace(s)
  {
    var a := LeadingSpace(s);
    var t := s[a..];
    var b := TrailingSpace(t);
    assert a == |s| ==> s[..a] == s;
    assert a < |s| ==> b < |t| by {
      if a < |s| {
        assert t[0] == s[a];
      }
    }
    t[..|t| - b]
  }

  /** `strip()` removes whitespace only: `s` is the result framed by two
      all-whitespace runs. */
  lemma StripFrames(s: string) returns (i: nat, j: nat)
    ensures i <= j <= |s|
    ensures Strip(s) == s[i..j]
    ensures AllSpace(s[..i]) && AllSpace(s[j..])
  {
    var a := LeadingSpace(s);
    var t := s[a..];
    var b := TrailingSpace(t);
    i, j := a, a + |t| - b;
    assert s[j..] == t[|t| - b..];
  }

  /** `strip()` changes nothing exactly when there is nothing to strip. */
  lemma StripIdentity(s: string)
    ensures Strip(s) == s <==> IsStripped(s)
  {
    if IsStripped(s) && |s| > 0 {
      assert LeadingSpace(s) == 0;
      assert s[0..] == s;
      assert TrailingSpace(s) == 0;
    }
  }

  /** `t` occurs in `s` starting at position `i`. */
  predicate OccursAt(s: string, t: string, i: nat) {
    i + |t| <= |s| && s[i..i + |t|] == t
  }

  /** Python's `t in s`. */
  predicate Contains(s: string, t: string) {
    exists i: nat | i <= |s| :: OccursAt(s, t, i)
  }

  /** Leftmost position at or after `from` where `t` occurs in `s`. */
  function Find(s: string, t: string, from: nat): (r: Option<nat>)
    requires from <= |s|
    ensures r.Some? ==> from <= r.value && OccursAt(s, t, r.value)
    ensures r.Some? ==> forall j: nat | from <= j < r.value :: !OccursAt(s, t, j)
    ensures r.None? ==> forall j: nat | from <= j <= |s| :: !OccursAt(s, t, j)
    decreases |s| - from
  {
    if OccursAt(s, t, from) then Some(from)
    else if from == |s| then None
    else Find(s, t, from + 1)
  }

  /** An occurrence with none before it (from `from` on) is what `Find` returns. */
  lemma {:induction false} FindLeftmost(s: string, t: string, from: nat, i: nat)
    requires from <= i <= |s|
    requires OccursAt(s, t, i)
    requires forall j: nat | from <= j < i :: !OccursAt(s, t, j)
    ensures Find(s, t, from) == Some(i)
    decreases i - from
  {
    if from < i {
      FindLeftmost(s, t, from + 1, i);
    }
  }

  /** Rejoins pieces with `sep` between consecutive ones (`sep.join`). */
  function Join(parts: seq<string>, sep: string): string
  {
    if |parts| == 0 then ""
    else if |parts| == 1 then parts[0]
    else parts[0] + sep + Join(parts[1..], sep)
  }

  /** Python's `s.split(sep)` for a non-empty separator: cut at every
      occurrence found scanning left to right, occurrences not overlapping. */
  function Split(s: string, sep: string): (parts: seq<string>)
    requires |sep| > 0
    ensures |parts| >= 1
    decreases |s|
  {
    match Find(s, sep, 0)
    case None => [s]
    case Some(i) => [s[..i]] + Split(s[i + |sep|..], sep)
  }

  /** A piece cut before position `i` cannot hold an occurrence that the
      whole string does not hold at the same place. */
  lemma OccursInPrefix(s: string, t: string, i: nat, j: nat)
    requires i <= |s|
    requires OccursAt(s[..i], t, j)
    ensures OccursAt(s, t, j)
  {
    assert s[..i][j..j + |t|] == s[j..j + |t|];
  }

  lemma JoinCons(p: string, tail: seq<string>, sep: string)
    requires |tail| >= 1
    ensures Join([p] + tail, sep) == p + sep + Join(tail, sep)
  {
    assert ([p] + tail)[1..] == tail;
  }

  /** Splitting and joining again gives back the original text. */
  lemma {:induction false} SplitJoin(s: string, sep: string)
    requires |sep| > 0
    ensures Join(Split(s, sep), sep) == s
    decreases |s|
  {
    var f := Find(s, sep, 0);
    if f.None? {
      assert Split(s, sep) == [s];
    } else {
      var i := f.value;
      var rest := s[i + |sep|..];
      var tail := Split(rest, sep);
      assert Split(s, sep) == [s[..i]] + tail;
      SplitJoin(rest, sep);
      JoinCons(s[..i], tail, sep);
      assert s[i..i + |sep|] == sep;
      assert s == s[..i] + s[i..i + |sep|] + rest;
    }
  }

  /** The first piece of a split holds no separator and is followed by the
      leftmost one. */
  lemma SplitHead(s: string, sep: string, i: nat)
    requires |sep| > 0
    requires Find(s, sep, 0) == Some(i)
    ensures !Contains(s[..i], sep)
    ensures forall j: nat | j < i :: !OccursAt(s[..i] + sep, sep, j)
  {
    forall j: nat | j <= i ensures !OccursAt(s[..i], sep, j) {
      if OccursAt(s[..i], sep, j) {
        OccursInPrefix(s, sep, i, j);
      }
    }
    assert s[..i] + sep == s[..i + |sep|];
    forall j: nat | j < i ensures !OccursAt(s[..i] + sep, sep, j) {
      if OccursAt(s[..i] + sep, sep, j) {
        OccursInPrefix(s, sep, i + |sep|, j);
      }
    }
  }

  /** No piece contains the separator, and every piece but the last is
      followed by the leftmost occurrence: the cuts are the ones a
      left-to-right scan makes. */
  lemma {:induction false} SplitPieces(s: string, sep: string)
    requires |sep| > 0
    ensures forall k | 0 <= k < |Split(s, sep)| :: !Contains(Split(s, sep)[k], sep)
    ensures forall k: nat, j: nat | k < |Split(s, sep)| - 1 && j < |Split(s, sep)[k]|
      :: !OccursAt(Split(s, sep)[k] + sep, sep, j)
    decreases |s|
  {
    var f := Find(s, sep, 0);
    if f.None? {
      assert Split(s, sep) == [s];
    } else {
      var i := f.value;
      var rest := s[i + |sep|..];
      SplitPieces(rest, sep);
      SplitHead(s, sep, i);
      var tail := Split(rest, sep);
      var parts := Split(s, sep);
      assert parts == [s[..i]] + tail;
      assert forall k | 1 <= k < |parts| :: parts[k] == tail[k - 1];
    }
  }

  /** The result of `Split` is the only cut of `s` with those properties. */
  lemma {:induction false} SplitUnique(s: string, sep: string, parts: seq<string>)
    requires |sep| > 0 && |parts| >= 1
    requires Join(parts, sep) == s
    requires forall k | 0 <= k < |parts| :: !Contains(parts[k], sep)
    requires forall k: nat, j: nat | k < |parts| - 1 && j < |parts[k]| :: !OccursAt(parts[k] + sep, sep, j)
    ensures parts == Split(s, sep)
    decreases |parts|
  {
    if |parts| == 1 {
      assert s == parts[0];
      match Find(s, sep, 0)
      case None =>
      case Some(i) =>
        assert false;
    } else {
      var p := parts[0];
      var rest := Join(parts[1..], sep);
      assert s == p + sep + rest;
      assert OccursAt(s, sep, |p|) by {
        assert s[|p|..|p| + |sep|] == sep;
      }
      forall j: nat | j < |p| ensures !OccursAt(s, sep, j) {
        assert !OccursAt(p + sep, sep, j);
      }
      match Find(s, sep, 0)
      case None =>
        assert false;
      case Some(i) =>
        assert i == |p|;
        assert s[i + |sep|..] == rest;
        assert s[..i] == p;
        SplitUnique(rest, sep, parts[1..]);
        assert parts == [p] + parts[1..];
    }
  }

  predicate IsUpperAscii(c: char) {
    'A' <= c <= 'Z'
  }

  const UpperAlphabet: string := "ABCDEFGHIJKLMNOPQRSTUVWXYZ"
  const LowerAlphabet: string := "abcdefghijklmnopqrstuvwxyz"

  /** Python's `str.lower()` for one character. ASCII capitals are mapped;
      of the other characters only the two whose lower-case form contains
      an ASCII letter are mapped (KELVIN SIGN and LATIN CAPITAL LETTER I
      WITH DOT ABOVE); every other character is left as is. */
  function LowerChar(c: char): (r: string)
    ensures IsUpperAscii(c) ==> r == [LowerAlphabet[c as int - 'A' as int]]
    ensures c == '\U{212A}' ==> r == "k"
    ensures c == '\U{0130}' ==> r == "i\U{0307}"
    ensures !IsUpperAscii(c) && c != '\U{212A}' && c != '\U{0130}' ==> r == [c]
  {
    if IsUpperAscii(c) then [(c as int + 32) as char]
    else if c == '\U{212A}' then "k"
    else if c == '\U{0130}' then "i\U{0307}"
    else [c]
  }

  /** Python's `s.lower()`, restricted as in `LowerChar`. */
  function Lower(s: string): (r: string)
    ensures forall i | 0 <= i < |r| :: !IsUpperAscii(r[i])
    ensures |r| >= |s|
  {
    if |s| == 0 then ""
    else LowerChar(s[0]) + Lower(s[1..])
  }

  /** Each capital of the alphabet is mapped to the small letter at the
      same place. */
  lemma LowerMapsAlphabet()
    ensures |UpperAlphabet| == |LowerAlphabet| == 26
    ensures forall k | 0 <= k < |UpperAlphabet| :: LowerChar(UpperAlphabet[k]) == [LowerAlphabet[k]]
  {
    forall k | 0 <= k < |UpperAlphabet| ensures LowerChar(UpperAlphabet[k]) == [LowerAlphabet[k]] {
      assert UpperAlphabet[k] as int - 'A' as int == k;
    }
  }

  /** On text without U+0130, the one character whose lower case is two
      characters long, lower-casing maps each character in place. */
  lemma {:induction false} LowerPointwise(s: string)
    requires forall i | 0 <= i < |s| :: s[i] != '\U{0130}'
    ensures |Lower(s)| == |s|
    ensures forall i | 0 <= i < |s| :: [Lower(s)[i]] == LowerChar(s[i])
    decreases |s|
  {
    if |s| > 0 {
      LowerPointwise(s[1..]);
      var r := Lower(s);
      assert r == LowerChar(s[0]) + Lower(s[1..]);
      forall i | 0 <= i < |s| ensures [r[i]] == LowerChar(s[i]) {
        if i > 0 {
          assert r[i] == Lower(s[1..])[i - 1];
          assert s[i] == s[1..][i - 1];
        }
      }
    }
  }

  lemma {:induction false} LowerAppend(a: string, b: string)
    ensures Lower(a + b) == Lower(a) + Lower(b)
    decreases |a|
  {
    if |a| > 0 {
      assert (a + b)[1..] == a[1..] + b;
      LowerAppend(a[1..], b);
    } else {
      assert a + b == b;
    }
  }

  /** Lower-casing twice is lower-casing once. */
  lemma {:induction false} LowerIdempotent(s: string)
    ensures Lower(Lower(s)) == Lower(s)
    decreases |s|
  {
    if |s| > 0 {
      var head := LowerChar(s[0]);
      LowerAppend(head, Lower(s[1..]));
      LowerIdempotent(s[1..]);
      if |head| == 1 {
        assert Lower(head) == LowerChar(head[0]) + Lower(head[1..]);
      } else {
        assert head == "i\U{0307}";
        assert Lower(head) == LowerChar('i') + Lower("\U{0307}");
      }
    }
  }

  /** Code-point (lexicographic) order on strings: `a <= b` in Python,
      and in SQLite's BINARY collation over UTF-8 text. */
  predicate StrLe(a: string, b: string)
    decreases |a|
  {
    |a| == 0 || (|b| > 0 && (a[0] < b[0] || (a[0] == b[0] && StrLe(a[1..], b[1..]))))
  }

  lemma {:induction false} StrLeReflexive(a: string)
    ensures StrLe(a, a)
    decreases |a|
  {
    if |a| > 0 { StrLeReflexive(a[1..]); }
  }

  lemma {:induction false} StrLeTotal(a: string, b: string)
    ensures StrLe(a, b) || StrLe(b, a)
    decreases |a|
  {
    if |a| > 0 && |b| > 0 && a[0] == b[0] { StrLeTotal(a[1..], b[1..]); }
  }

  lemma {:induction false} StrLeTransitive(a: string, b: string, c: string)
    requires StrLe(a, b) && StrLe(b, c)
    ensures StrLe(a, c)
    decreases |a|
  {
    if |a| > 0 && a[0] == b[0] && b[0] == c[0] {
      StrLeTransitive(a[1..], b[1..], c[1..]);
    }
  }

  lemma {:induction false} StrLeAntisymmetric(a: string, b: string)
    requires StrLe(a, b) && StrLe(b, a)
    ensures a == b
    decreases |a|
  {
    if |a| > 0 {
      StrLeAntisymmetric(a[1..], b[1..]);
      assert a == [a[0]] + a[1..] && b == [b[0]] + b[1..];
    }
  }

  /** Decimal digits as Python's `re` `\d` reads them in ASCII text. */
  predicate IsDigit(c: char) {
    '0' <= c <= '9'
  }

  function DigitValue(c: char): (d: nat)
    requires IsDigit(c)
    ensures d <= 9 && "0123456789"[d] == c
  {
    c as int - '0' as int
  }
}
