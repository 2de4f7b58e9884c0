/**
  The Python `str` operations the two scripts use, with Python's exact
  semantics: `startswith`, `lstrip`/`rstrip` with one character,
  `replace(old, new, 1)`, `replace('//', '/')`, `split('/')`, `'/'.join`,
  `lower()` (ASCII letters only) and `str()` of an `int`.
 */
module PyText {
  import opened Wrappers

  /** Python's `s.startswith(prefix)`. */
  predicate StartsWith(s: string, prefix: string) {
    prefix <= s
  }

  /** `sub` occurs in `s` at index `k`. */
  predicate OccursAt(s: string, sub: string, k: nat) {
    k + |sub| <= |s| && s[k..k + |sub|] == sub
  }

  /** Python's `s.lstrip(c)`: drop every leading `c`. */
  function LStrip(s: string, c: char): (r: string)
    ensures |r| <= |s| && r == s[|s| - |r|..]
    ensures forall i :: 0 <= i < |s| - |r| ==> s[i] == c
    ensures r == [] || r[0] != c
  {
    if s != [] && s[0] == c then LStrip(s[1..], c) else s
  }

  /** Python's `s.rstrip(c)`: drop every trailing `c`. */
  function RStrip(s: string, c: char): (r: string)
    ensures |r| <= |s| && r == s[..|r|]
    ensures forall i :: |r| <= i < |s| ==> s[i] == c
    ensures r == [] || r[|r| - 1] != c
  {
    if s != [] && s[|s| - 1] == c then RStrip(s[..|s| - 1], c) else s
  }

  /** Index of the leftmost occurrence of `sub` in `s` (Python's `s.find(sub)`,
      with `None` for -1). The empty string occurs at 0. */
  function Find(s: string, sub: string): (r: Option<nat>)
    ensures r.Some? ==> OccursAt(s, sub, r.value)
    ensures r.Some? ==> forall j :: 0 <= j < r.value ==> !OccursAt(s, sub, j)
    ensures r.None? ==> forall j :: 0 <= j <= |s| ==> !OccursAt(s, sub, j)
    decreases |s|
  {
    if sub <= s then Some(0)
    else if s == [] then None
    else
      var rest := Find(s[1..], sub);
      assert forall j :: 1 <= j <= |s| ==> (OccursAt(s, sub, j) <==> OccursAt(s[1..], sub, j - 1));
      match rest
      case None => None
      case Some(k) => Some(k + 1)
  }

  /** Python's `sub in s` on two strings. */
  predicate Contains(s: string, sub: string) {
    Find(s, sub).Some?
  }

  /** Python's `s.replace(pat, repl, 1)`: replace the leftmost occurrence only. */
  function ReplaceFirst(s: string, pat: string, repl: string): string {
    match Find(s, pat)
    case None => s
    case Some(k) => s[..k] + repl + s[k + |pat|..]
  }

  /** Two slashes at index `i`. */
  predicate DoubleSlashAt(s: string, i: int) {
    0 <= i && i + 1 < |s| && s[i] == '/' && s[i + 1] == '/'
  }

  /** Three slashes at index `i`. */
  predicate TripleSlashAt(s: string, i: int) {
    0 <= i && i + 2 < |s| && s[i] == '/' && s[i + 1] == '/' && s[i + 2] == '/'
  }

  /** Python's `s.replace('//', '/')`: one left-to-right pass over
      non-overlapping occurrences. */
  function CollapseSlashes(s: string): string {
    if |s| >= 2 && s[0] == '/' && s[1] == '/' then "/" + CollapseSlashes(s[2..])
    else if s == [] then []
    else [s[0]] + CollapseSlashes(s[1..])
  }

  /** `s` with every '/' removed. */
  function Unslashed(s: string): (r: string)
    ensures '/' !in r
  {
    if s == [] then [] else (if s[0] == '/' then [] else [s[0]]) + Unslashed(s[1..])
  }

  /** `'/'.join(parts)`. */
  function Join(parts: seq<string>): string {
    if |parts| == 0 then ""
    else if |parts| == 1 then parts[0]
    else parts[0] + "/" + Join(parts[1..])
  }

  /** Python's `s.split('/')`: always at least one part. */
  function Split(s: string): (parts: seq<string>)
    ensures |parts| >= 1
  {
    if s == [] then [""]
    else
      var rest := Split(s[1..]);
      if s[0] == '/' then
        [""] + rest
      else
        [[s[0]] + rest[0]] + rest[1..]
  }

  /** `s.split('/')[-1]`: the text after the last '/'. */
  function LastSegment(s: string): string {
    var parts := Split(s);
    parts[|parts| - 1]
  }

  /** `'/'.join(s.split('/')[:-1])`: everything before the last '/'. */
  function ParentDir(s: string): string {
    var parts := Split(s);
    Join(parts[..|parts| - 1])
  }

  /** Python's `s.lower()` on ASCII letters; other characters are kept. */
  function Lower(s: string): (r: string)
    ensures |r| == |s|
  {
    if s == [] then []
    else [if 'A' <= s[0] <= 'Z' then (s[0] as int + 32) as char else s[0]] + Lower(s[1..])
  }

  function DigitChar(d: nat): char
    requires d < 10
  {
    ('0' as int + d) as char
  }

  predicate IsDigit(c: char) {
    '0' <= c <= '9'
  }

  /** The number a string of decimal digits denotes, read most significant
      digit first. */
  function DecimalValue(s: string): int {
    if s == [] then 0 else DecimalValue(s[..|s| - 1]) * 10 + (s[|s| - 1] as int - '0' as int)
  }

  /** Decimal digits of `n`, most significant first: they denote `n`, and
      there is no leading zero (only 0 itself is written "0"). */
  function Digits(n: nat): (r: string)
    ensures |r| >= 1 && forall i :: 0 <= i < |r| ==> IsDigit(r[i])
    ensures DecimalValue(r) == n
    ensures |r| == 1 || r[0] != '0'
  {
    if n < 10 then [DigitChar(n)]
    else
      var r := Digits(n / 10) + [DigitChar(n % 10)];
      assert r[..|r| - 1] == Digits(n / 10);
      r
  }

  /** Python's `str(i)` for an `int`: a minus sign exactly for a negative
      value, then the digits of its magnitude without leading zeros. */
  function IntStr(i: int): (r: string)
    ensures |r| >= 2 || (|r| == 1 && IsDigit(r[0]))
    ensures r[0] == '-' <==> i < 0
    ensures var mag := if i < 0 then r[1..] else r;
      |mag| >= 1 && (forall k :: 0 <= k < |mag| ==> IsDigit(mag[k])) &&
      DecimalValue(mag) == (if i < 0 then -i else i) && (|mag| == 1 || mag[0] != '0')
  {
    if i < 0 then
      var r := "-" + Digits(-i);
      assert r[1..] == Digits(-i);
      r
    else Digits(i)
  }

  /** Different integers have different decimal texts. */
  lemma IntStrInjective(a: int, b: int)
    requires IntStr(a) == IntStr(b)
    ensures a == b
  {
  }

  /** A text with a leading zero followed by more characters is the `str`
      of no integer. */
  lemma ZeroPaddedIsNoIntStr(s: string, i: int)
    requires |s| >= 2 && s[0] == '0'
    ensures IntStr(i) != s
  {
  }

  // ---------------------------------------------------------------------
  // replace(pat, repl, 1)

  /** The single replacement leaves `s` unchanged exactly when `pat` does not
      occur in `s` or when `pat` and `repl` are the same string. */
  lemma ReplaceFirstUnchangedIff(s: string, pat: string, repl: string)
    ensures ReplaceFirst(s, pat, repl) == s <==> (!Contains(s, pat) || pat == repl)
  {
    match Find(s, pat)
    case None =>
    case Some(k) =>
      var r := s[..k] + repl + s[k + |pat|..];
      assert s == s[..k] + pat + s[k + |pat|..];
      if r == s {
        assert |repl| == |pat|;
        assert r[k..k + |repl|] == repl;
      }
  }

  /** When `s` starts with `pat`, the leftmost occurrence is at 0. */
  lemma ReplaceFirstAtStart(s: string, pat: string, repl: string)
    requires StartsWith(s, pat)
    ensures ReplaceFirst(s, pat, repl) == repl + s[|pat|..]
  {
    assert OccursAt(s, pat, 0);
  }

  // ---------------------------------------------------------------------
  // replace('//', '/')

  lemma CollapseHead(t: string)
    requires t != []
    ensures CollapseSlashes(t) != [] && CollapseSlashes(t)[0] == t[0]
  {
  }

  /** Without a doubled slash there is nothing to replace. */
  lemma {:induction false} CollapseNoDouble(s: string)
    requires forall i :: !DoubleSlashAt(s, i)
    ensures CollapseSlashes(s) == s
  {
    if s != [] {
      assert !DoubleSlashAt(s, 0);
      forall i ensures !DoubleSlashAt(s[1..], i) {
        assert !DoubleSlashAt(s, i + 1);
      }
      CollapseNoDouble(s[1..]);
    }
  }

  /** The single pass leaves a doubled slash in its output exactly when its
      input held three slashes in a row (so `'///'` becomes `'//'`). */
  lemma {:induction false} CollapseDoubleIffTriple(s: string)
    ensures (exists i :: TripleSlashAt(s, i)) <==> (exists j :: DoubleSlashAt(CollapseSlashes(s), j))
  {
    if (exists i :: TripleSlashAt(s, i)) {
      TripleGivesDouble(s);
    }
    if (exists j :: DoubleSlashAt(CollapseSlashes(s), j)) {
      if forall i :: !TripleSlashAt(s, i) {
        NoTripleGivesNoDouble(s);
        assert false;
      }
    }
  }

  lemma {:induction false} TripleGivesDouble(s: string)
    requires exists i :: TripleSlashAt(s, i)
    ensures exists j :: DoubleSlashAt(CollapseSlashes(s), j)
    decreases |s|
  {
    var i :| TripleSlashAt(s, i);
    var c := CollapseSlashes(s);
    if s[0] == '/' && s[1] == '/' {
      var rest := CollapseSlashes(s[2..]);
      assert c == "/" + rest;
      if i <= 1 {
        CollapseHead(s[2..]);
        assert DoubleSlashAt(c, 0);
      } else {
        assert TripleSlashAt(s[2..], i - 2);
        TripleGivesDouble(s[2..]);
        var j :| DoubleSlashAt(rest, j);
        assert DoubleSlashAt(c, j + 1);
      }
    } else {
      var rest := CollapseSlashes(s[1..]);
      assert c == [s[0]] + rest;
      assert i >= 1;
      assert TripleSlashAt(s[1..], i - 1);
      TripleGivesDouble(s[1..]);
      var j :| DoubleSlashAt(rest, j);
      assert DoubleSlashAt(c, j + 1);
    }
  }

  lemma {:induction false} NoTripleGivesNoDouble(s: string)
    requires forall i :: !TripleSlashAt(s, i)
    ensures forall j :: !DoubleSlashAt(CollapseSlashes(s), j)
    decreases |s|
  {
    if s == [] {
    } else if |s| >= 2 && s[0] == '/' && s[1] == '/' {
      var rest := CollapseSlashes(s[2..]);
      forall i ensures !TripleSlashAt(s[2..], i) {
        assert !TripleSlashAt(s, i + 2);
      }
      NoTripleGivesNoDouble(s[2..]);
      assert !TripleSlashAt(s, 0);
      if s[2..] != [] {
        CollapseHead(s[2..]);
      }
      forall j ensures !DoubleSlashAt("/" + rest, j) {
        if j >= 1 {
          assert !DoubleSlashAt(rest, j - 1);
        }
      }
    } else {
      var rest := CollapseSlashes(s[1..]);
      forall i ensures !TripleSlashAt(s[1..], i) {
        assert !TripleSlashAt(s, i + 1);
      }
      NoTripleGivesNoDouble(s[1..]);
      if s[1..] != [] {
        CollapseHead(s[1..]);
      }
      forall j ensures !DoubleSlashAt([s[0]] + rest, j) {
        if j >= 1 {
          assert !DoubleSlashAt(rest, j - 1);
        }
      }
    }
  }

  /** The pass only ever deletes slashes: the other characters, in order,
      are the same before and after. */
  lemma {:induction false} CollapseKeepsText(s: string)
    ensures Unslashed(CollapseSlashes(s)) == Unslashed(s)
    decreases |s|
  {
    if s == [] {
    } else if |s| >= 2 && s[0] == '/' && s[1] == '/' {
      CollapseKeepsText(s[2..]);
      assert Unslashed(s) == Unslashed(s[1..]);
      assert s[1..][1..] == s[2..];
      assert ("/" + CollapseSlashes(s[2..]))[1..] == CollapseSlashes(s[2..]);
    } else {
      CollapseKeepsText(s[1..]);
      assert ([s[0]] + CollapseSlashes(s[1..]))[1..] == CollapseSlashes(s[1..]);
    }
  }

  /** A path with a slash keeps one after the pass, and vice versa. */
  lemma {:induction false} CollapseKeepsSlash(s: string)
    ensures '/' in s <==> '/' in CollapseSlashes(s)
    decreases |s|
  {
    if s == [] {
    } else if |s| >= 2 && s[0] == '/' && s[1] == '/' {
      assert '/' in s && '/' in "/" + CollapseSlashes(s[2..]);
    } else {
      CollapseKeepsSlash(s[1..]);
      assert s == [s[0]] + s[1..];
    }
  }

  // ---------------------------------------------------------------------
  // split('/'), join, last segment, parent directory

  /** No part of a split holds '/', and joining the parts with '/' gives
      the string back. */
  lemma SplitParts(s: string)
    ensures forall i :: 0 <= i < |Split(s)| ==> '/' !in Split(s)[i]
    ensures Join(Split(s)) == s
  {
    SplitPartsNoSlash(s);
    SplitJoin(s);
  }

  lemma {:induction false} SplitPartsNoSlash(s: string)
    ensures forall i :: 0 <= i < |Split(s)| ==> '/' !in Split(s)[i]
    decreases |s|
  {
    if s != [] {
      var rest := Split(s[1..]);
      SplitPartsNoSlash(s[1..]);
      if s[0] == '/' {
        SplitSlashHead(s);
      } else {
        SplitCharHead(s);
        var parts := Split(s);
        forall i | 0 <= i < |parts|
          ensures '/' !in parts[i]
        {
          if i > 0 {
            assert parts[i] == rest[i];
          }
        }
      }
    }
  }

  lemma {:induction false} SplitJoin(s: string)
    ensures Join(Split(s)) == s
    decreases |s|
  {
    if s != [] {
      var rest := Split(s[1..]);
      SplitJoin(s[1..]);
      if s[0] == '/' {
        SplitSlashHead(s);
        JoinCons("", rest);
        assert s == "/" + s[1..];
      } else {
        SplitCharHead(s);
        SplitCharJoin(s[0], rest);
        assert s == [s[0]] + s[1..];
      }
    }
  }

  lemma SplitSlashHead(s: string)
    requires s != [] && s[0] == '/'
    ensures Split(s) == [""] + Split(s[1..])
  {
  }

  lemma SplitCharHead(s: string)
    requires s != [] && s[0] != '/'
    ensures Split(s) == [[s[0]] + Split(s[1..])[0]] + Split(s[1..])[1..]
  {
  }

  lemma JoinCons(p: string, rest: seq<string>)
    requires |rest| >= 1
    ensures Join([p] + rest) == p + "/" + Join(rest)
  {
    assert ([p] + rest)[1..] == rest;
  }

  lemma ConcatAssoc(w: string, x: string, y: string, z: string)
    ensures ((w + x) + y) + z == w + ((x + y) + z)
  {
  }

  /** Gluing a character onto the first part glues it onto the join. */
  lemma SplitCharJoin(c: char, rest: seq<string>)
    requires |rest| >= 1
    ensures Join([[c] + rest[0]] + rest[1..]) == [c] + Join(rest)
  {
    var head, tail := rest[0], rest[1..];
    if |rest| == 1 {
      assert [[c] + head] + tail == [[c] + head];
    } else {
      var j := Join(tail);
      calc {
        Join([[c] + head] + tail);
        { JoinCons([c] + head, tail); }
        ([c] + head) + "/" + j;
        { ConcatAssoc([c], head, "/", j); }
        [c] + (head + "/" + j);
        { JoinCons(head, tail); assert [head] + tail == rest; }
        [c] + Join(rest);
      }
    }
  }

  /** A string without '/' splits into itself alone. */
  lemma {:induction false} SplitNoSlash(s: string)
    ensures '/' !in s <==> Split(s) == [s]
    decreases |s|
  {
    if s != [] {
      SplitNoSlash(s[1..]);
      SplitParts(s[1..]);
      assert s == [s[0]] + s[1..];
      if s[0] == '/' {
        assert Split(s)[0] == "";
      } else if '/' in s[1..] {
        assert |Split(s[1..])| >= 2;
      }
    }
  }

  /** Joining all but the last part, a '/', and the last part gives the
      join of all parts. */
  lemma {:induction false} JoinSnoc(parts: seq<string>)
    requires |parts| >= 2
    ensures Join(parts) == Join(parts[..|parts| - 1]) + "/" + parts[|parts| - 1]
    decreases |parts|
  {
    if |parts| > 2 {
      JoinSnoc(parts[1..]);
      assert parts[1..][..|parts| - 2] == parts[..|parts| - 1][1..];
    }
  }

  /** The parent directory, '/', and the last segment give back the path;
      a path without '/' has an empty parent and is its own last segment. */
  lemma ParentDirAndLastSegment(s: string)
    ensures '/' !in LastSegment(s)
    ensures '/' in s ==> ParentDir(s) + "/" + LastSegment(s) == s
    ensures '/' !in s ==> ParentDir(s) == "" && LastSegment(s) == s
  {
    SplitNoSlash(s);
    SplitParts(s);
    var parts := Split(s);
    var n := |parts|;
    assert '/' !in parts[n - 1];
    if '/' in s {
      JoinSnoc(parts);
    } else {
      assert parts[..n - 1] == [];
    }
  }

  lemma {:induction false} LastSegmentCons(c: char, t: string)
    ensures LastSegment([c] + t) ==
      if '/' in t then LastSegment(t) else if c == '/' then t else [c] + t
  {
    var s := [c] + t;
    assert s[1..] == t;
    var rest := Split(t);
    SplitNoSlash(t);
    if '/' in t {
      SplitParts(t);
      assert |rest| >= 2;
      if c == '/' {
        SplitSlashHead(s);
        assert Split(s)[|Split(s)| - 1] == rest[|rest| - 1];
      } else {
        SplitCharHead(s);
        assert Split(s)[|Split(s)| - 1] == rest[1..][|rest| - 2];
      }
    } else if c == '/' {
      SplitSlashHead(s);
      assert Split(s) == ["", t];
    } else {
      SplitCharHead(s);
      assert Split(s) == [[c] + t];
    }
  }

  /** Whatever stands before a '/' does not matter to the last segment. */
  lemma {:induction false} LastSegmentAfterSlash(a: string, t: string)
    ensures LastSegment(a + "/" + t) == LastSegment(t)
    decreases |a|
  {
    if a == [] {
      assert a + "/" + t == ['/'] + t;
      LastSegmentCons('/', t);
      SplitNoSlash(t);
    } else {
      assert a + "/" + t == [a[0]] + (a[1..] + "/" + t);
      assert '/' in a[1..] + "/" + t;
      LastSegmentCons(a[0], a[1..] + "/" + t);
      LastSegmentAfterSlash(a[1..], t);
    }
  }

  /** Stripping leading slashes keeps the last segment. */
  lemma {:induction false} LastSegmentLStrip(x: string)
    ensures LastSegment(LStrip(x, '/')) == LastSegment(x)
    decreases |x|
  {
    if x != [] && x[0] == '/' {
      assert x == ['/'] + x[1..];
      LastSegmentCons('/', x[1..]);
      LastSegmentLStrip(x[1..]);
      if '/' !in x[1..] {
        SplitNoSlash(x[1..]);
        assert LStrip(x[1..], '/') == x[1..];
      }
    }
  }

  /** The `//` pass keeps the last segment. */
  lemma {:induction false} LastSegmentCollapse(s: string)
    ensures LastSegment(CollapseSlashes(s)) == LastSegment(s)
    decreases |s|
  {
    if s == [] {
    } else if |s| >= 2 && s[0] == '/' && s[1] == '/' {
      LastSegmentCollapse(s[2..]);
      LastSegmentCollapsePair(s);
    } else {
      LastSegmentCollapse(s[1..]);
      LastSegmentCollapseChar(s);
    }
  }

  lemma LastSegmentCollapsePair(s: string)
    requires |s| >= 2 && s[0] == '/' && s[1] == '/'
    requires LastSegment(CollapseSlashes(s[2..])) == LastSegment(s[2..])
    ensures LastSegment(CollapseSlashes(s)) == LastSegment(s)
  {
    var t := s[2..];
    if '/' in t {
      calc {
        LastSegment(CollapseSlashes(s));
        { assert CollapseSlashes(s) == ['/'] + CollapseSlashes(t); }
        LastSegment(['/'] + CollapseSlashes(t));
        { CollapseKeepsSlash(t); LastSegmentCons('/', CollapseSlashes(t)); }
        LastSegment(CollapseSlashes(t));
        LastSegment(t);
        { LastSegmentCons('/', t); LastSegmentCons('/', ['/'] + t); }
        LastSegment(['/'] + (['/'] + t));
        { assert s == ['/'] + (['/'] + t); }
        LastSegment(s);
      }
    } else {
      calc {
        LastSegment(CollapseSlashes(s));
        { assert CollapseSlashes(s) == ['/'] + CollapseSlashes(t); NoSlashCollapse(t); }
        LastSegment(['/'] + t);
        { LastSegmentCons('/', t); }
        t;
        { LastSegmentCons('/', t); LastSegmentCons('/', ['/'] + t); }
        LastSegment(['/'] + (['/'] + t));
        { assert s == ['/'] + (['/'] + t); }
        LastSegment(s);
      }
    }
  }

  lemma LastSegmentCollapseChar(s: string)
    requires s != [] && !(|s| >= 2 && s[0] == '/' && s[1] == '/')
    requires LastSegment(CollapseSlashes(s[1..])) == LastSegment(s[1..])
    ensures LastSegment(CollapseSlashes(s)) == LastSegment(s)
  {
    if '/' in s[1..] {
      CollapseCharSlashAfter(s);
    } else {
      CollapseCharNoSlashAfter(s);
    }
  }

  lemma CollapseCharSlashAfter(s: string)
    requires s != [] && !(|s| >= 2 && s[0] == '/' && s[1] == '/') && '/' in s[1..]
    requires LastSegment(CollapseSlashes(s[1..])) == LastSegment(s[1..])
    ensures LastSegment(CollapseSlashes(s)) == LastSegment(s)
  {
    var ct := CollapseSlashes(s[1..]);
    CollapseUnfoldChar(s);
    CollapseKeepsSlash(s[1..]);
    LastSegmentConsSlash(s[0], ct);
    LastSegmentDropHead(s);
  }

  lemma CollapseUnfoldChar(s: string)
    requires s != [] && !(|s| >= 2 && s[0] == '/' && s[1] == '/')
    ensures CollapseSlashes(s) == [s[0]] + CollapseSlashes(s[1..])
  {
  }

  lemma LastSegmentDropHead(s: string)
    requires s != [] && '/' in s[1..]
    ensures LastSegment(s) == LastSegment(s[1..])
  {
    assert s == [s[0]] + s[1..];
    LastSegmentConsSlash(s[0], s[1..]);
  }

  lemma LastSegmentConsSlash(c: char, t: string)
    requires '/' in t
    ensures LastSegment([c] + t) == LastSegment(t)
  {
    LastSegmentCons(c, t);
  }

  lemma CollapseCharNoSlashAfter(s: string)
    requires s != [] && '/' !in s[1..]
    ensures CollapseSlashes(s) == s
  {
    var c, t := s[0], s[1..];
    NoSlashCollapse(t);
    assert !(|s| >= 2 && s[0] == '/' && s[1] == '/') by {
      if |s| >= 2 {
        assert s[1] == t[0];
      }
    }
    assert CollapseSlashes(s) == [c] + CollapseSlashes(t);
    assert s == [c] + t;
  }

  lemma NoSlashCollapse(t: string)
    requires '/' !in t
    ensures CollapseSlashes(t) == t
  {
    CollapseNoDouble(t);
  }
}
