/** The JavaScript string built-ins the server relies on: global
    replacement (`String.prototype.replace` with a `/g` regular expression
    that has no metacharacters and a replacement string), `split` and
    `join` with a string separator, upper-casing, and the decimal rendering
    of a non-negative number. */
module Strings {
  import opened Wrappers

  /** `pat` occurs in `s` starting at index `i`. */
  predicate OccursAt(s: string, pat: string, i: nat)
  {
    i <= |s| && pat <= s[i..]
  }

  predicate Contains(s: string, pat: string)
  {
    exists i: nat | i <= |s| :: OccursAt(s, pat, i)
  }

  /** Occurrences in `s[1..]` are the occurrences in `s` shifted by one. */
  lemma OccursAtTail(s: string, pat: string)
    requires s != []
    ensures forall j: nat :: OccursAt(s[1..], pat, j) <==> OccursAt(s, pat, j + 1)
    ensures forall j: nat :: 0 < j ==> (OccursAt(s, pat, j) <==> OccursAt(s[1..], pat, j - 1))
  {
    forall j: nat | j + 1 <= |s| ensures s[1..][j..] == s[j + 1..] { }
  }

  // ---------------------------------------------------------------------
  // Global replacement

  /** Left-to-right, non-overlapping replacement of every occurrence of
      `pat` by `rep`; text that `rep` inserts is never rescanned. */
  function ReplaceAll(s: string, pat: string, rep: string): string
    requires pat != []
    decreases |s|
  {
    if s == [] then []
    else if pat <= s then rep + ReplaceAll(s[|pat|..], pat, rep)
    else [s[0]] + ReplaceAll(s[1..], pat, rep)
  }

  /** Text without the pattern is left unchanged. */
  lemma {:induction false} ReplaceAllNoMatch(s: string, pat: string, rep: string)
    requires pat != [] && !Contains(s, pat)
    ensures ReplaceAll(s, pat, rep) == s
    decreases |s|
  {
    if s != [] {
      assert s[0..] == s;
      assert !OccursAt(s, pat, 0);
      OccursAtTail(s, pat);
      assert !Contains(s[1..], pat);
      ReplaceAllNoMatch(s[1..], pat, rep);
    }
  }

  /** A text without the first character of a pattern does not contain it. */
  lemma NoFirstChar(s: string, pat: string)
    requires pat != [] && pat[0] !in s
    ensures !Contains(s, pat)
  {
    forall i: nat | i < |s| ensures !OccursAt(s, pat, i) {
      assert s[i] != pat[0];
    }
  }

  /** No occurrence of `pat` in `a + b` begins inside `a` and ends inside `b`. */
  predicate NoStraddle(a: string, b: string, pat: string)
  {
    forall i: nat :: i < |a| < i + |pat| ==> !OccursAt(a + b, pat, i)
  }

  lemma NoStraddleDrop(a: string, b: string, pat: string, k: nat)
    requires k <= |a| && NoStraddle(a, b, pat)
    ensures NoStraddle(a[k..], b, pat)
  {
    forall i: nat | i < |a[k..]| < i + |pat|
      ensures !OccursAt(a[k..] + b, pat, i)
    {
      assert (a[k..] + b)[i..] == (a + b)[i + k..];
      assert !OccursAt(a + b, pat, i + k);
    }
  }

  /** Replacement distributes over a concatenation that no occurrence of
      the pattern straddles. */
  lemma {:induction false} ReplaceAllAppend(a: string, b: string, pat: string, rep: string)
    requires pat != [] && NoStraddle(a, b, pat)
    ensures ReplaceAll(a + b, pat, rep) == ReplaceAll(a, pat, rep) + ReplaceAll(b, pat, rep)
    decreases |a|, 1
  {
    if a == [] {
      assert a + b == b;
    } else if pat <= a {
      ReplaceAllAppendMatch(a, b, pat, rep);
    } else {
      ReplaceAllAppendSkip(a, b, pat, rep);
    }
  }

  /** The case where `a` starts with the pattern. */
  lemma {:induction false} ReplaceAllAppendMatch(a: string, b: string, pat: string, rep: string)
    requires pat != [] && NoStraddle(a, b, pat) && pat <= a
    ensures ReplaceAll(a + b, pat, rep) == ReplaceAll(a, pat, rep) + ReplaceAll(b, pat, rep)
    decreases |a|, 0
  {
    assert pat <= a + b;
    assert (a + b)[|pat|..] == a[|pat|..] + b;
    NoStraddleDrop(a, b, pat, |pat|);
    ReplaceAllAppend(a[|pat|..], b, pat, rep);
  }

  /** The case where `a` is not empty and does not start with the pattern. */
  lemma {:induction false} ReplaceAllAppendSkip(a: string, b: string, pat: string, rep: string)
    requires pat != [] && NoStraddle(a, b, pat) && a != [] && !(pat <= a)
    ensures ReplaceAll(a + b, pat, rep) == ReplaceAll(a, pat, rep) + ReplaceAll(b, pat, rep)
    decreases |a|, 0
  {
    assert !(pat <= a + b) by {
      if |a| < |pat| {
        assert (a + b)[0..] == a + b;
        assert !OccursAt(a + b, pat, 0);
      }
    }
    assert (a + b)[1..] == a[1..] + b;
    NoStraddleDrop(a, b, pat, 1);
    ReplaceAllAppend(a[1..], b, pat, rep);
  }

  /** The pattern itself is replaced by exactly the replacement. */
  lemma ReplaceAllPattern(pat: string, rep: string)
    requires pat != []
    ensures ReplaceAll(pat, pat, rep) == rep
  {
    assert pat[|pat|..] == [];
  }

  /** Replacing a single character by text that does not contain it leaves
      no trace of that character. */
  lemma {:induction false} ReplaceAllCharGone(s: string, c: char, rep: string)
    requires c !in rep
    ensures c !in ReplaceAll(s, [c], rep)
    decreases |s|
  {
    if s != [] {
      ReplaceAllCharGone(s[1..], c, rep);
      if [c] <= s {
        assert s[|[c]|..] == s[1..];
      } else {
        assert s[0] != c;
      }
    }
  }

  // ---------------------------------------------------------------------
  // Replacement patterns

  /** The replacement holds none of the patterns `$$`, `$&`, `` $` ``, `$'`
      that `String.prototype.replace` expands, so it is inserted as is. */
  predicate LiteralReplacement(rep: string)
  {
    forall i :: 0 <= i < |rep| - 1 && rep[i] == '$' ==> rep[i + 1] !in "$&`'"
  }

  /** The text inserted for one match (GetSubstitution, section 22.1.3.19.1
      of ECMA-262, for a regular expression without capture groups): `$$`
      gives `$`, `$&` the matched text, `` $` `` the text before the match,
      `$'` the text after it; every other character, `$` included, is
      copied. */
  function Substitution(rep: string, matched: string, before: string, after: string): (r: string)
    ensures LiteralReplacement(rep) ==> r == rep
    decreases |rep|
  {
    if rep == [] then []
    else if |rep| >= 2 && rep[0] == '$' && rep[1] in "$&`'" then
      var inserted := if rep[1] == '$' then "$"
                      else if rep[1] == '&' then matched
                      else if rep[1] == '`' then before
                      else after;
      inserted + Substitution(rep[2..], matched, before, after)
    else
      LiteralTail(rep);
      [rep[0]] + Substitution(rep[1..], matched, before, after)
  }

  lemma LiteralTail(rep: string)
    requires rep != []
    ensures LiteralReplacement(rep) ==> LiteralReplacement(rep[1..])
  {
    if LiteralReplacement(rep) {
      forall i | 0 <= i < |rep[1..]| - 1 && rep[1..][i] == '$' ensures rep[1..][i + 1] !in "$&`'" {
        assert rep[1..][i] == rep[i + 1] && rep[1..][i + 1] == rep[i + 2];
      }
    }
  }

  /** `s.replace(/pat/g, rep)`: every occurrence of `pat`, left to right and
      without overlap, becomes the substitution of `rep` for that match. */
  function ReplaceGlobal(s: string, pat: string, rep: string): (r: string)
    requires pat != []
    ensures pat[0] !in s ==> r == s
  {
    ReplaceFromFirstAbsent(s, pat, rep);
    ReplaceFrom(s, 0, pat, rep)
  }

  /** The replacement of the occurrences at or after index `i`. */
  function ReplaceFrom(s: string, i: nat, pat: string, rep: string): string
    requires pat != [] && i <= |s|
    decreases |s| - i
  {
    if i == |s| then []
    else if pat <= s[i..] then
      Substitution(rep, pat, s[..i], s[i + |pat|..]) + ReplaceFrom(s, i + |pat|, pat, rep)
    else [s[i]] + ReplaceFrom(s, i + 1, pat, rep)
  }

  lemma {:induction false} ReplaceFromLiteral(s: string, i: nat, pat: string, rep: string)
    requires pat != [] && i <= |s| && LiteralReplacement(rep)
    ensures ReplaceFrom(s, i, pat, rep) == ReplaceAll(s[i..], pat, rep)
    decreases |s| - i
  {
    if i < |s| {
      var t := s[i..];
      if pat <= t {
        var j := i + |pat|;
        assert ReplaceAll(t, pat, rep) == rep + ReplaceAll(s[j..], pat, rep) by {
          assert t[|pat|..] == s[j..];
        }
        assert ReplaceFrom(s, i, pat, rep) == rep + ReplaceFrom(s, j, pat, rep);
        ReplaceFromLiteral(s, j, pat, rep);
      } else {
        assert ReplaceAll(t, pat, rep) == [s[i]] + ReplaceAll(s[i + 1..], pat, rep) by {
          assert t[1..] == s[i + 1..];
        }
        ReplaceFromLiteral(s, i + 1, pat, rep);
      }
    }
  }

  /** Without replacement patterns, the global replacement is the literal
      one. */
  lemma ReplaceGlobalLiteral(s: string, pat: string, rep: string)
    requires pat != [] && LiteralReplacement(rep)
    ensures ReplaceGlobal(s, pat, rep) == ReplaceAll(s, pat, rep)
  {
    ReplaceFromLiteral(s, 0, pat, rep);
    assert s[0..] == s;
  }

  lemma {:induction false} ReplaceFromNoMatch(s: string, i: nat, pat: string, rep: string)
    requires pat != [] && i <= |s| && !Contains(s, pat)
    ensures ReplaceFrom(s, i, pat, rep) == s[i..]
    decreases |s| - i
  {
    if i < |s| {
      assert !OccursAt(s, pat, i);
      ReplaceFromNoMatch(s, i + 1, pat, rep);
      assert [s[i]] + s[i + 1..] == s[i..];
    }
  }

  lemma ReplaceFromFirstAbsent(s: string, pat: string, rep: string)
    requires pat != []
    ensures pat[0] !in s ==> ReplaceFrom(s, 0, pat, rep) == s
  {
    if pat[0] !in s {
      NoFirstChar(s, pat);
      ReplaceFromNoMatch(s, 0, pat, rep);
      assert s[0..] == s;
    }
  }

  /** Text without the pattern is left unchanged, whatever the replacement. */
  lemma ReplaceGlobalNoMatch(s: string, pat: string, rep: string)
    requires pat != [] && !Contains(s, pat)
    ensures ReplaceGlobal(s, pat, rep) == s
  {
    ReplaceFromNoMatch(s, 0, pat, rep);
    assert s[0..] == s;
  }

  // ---------------------------------------------------------------------
  // Search, split and join

  /** The first occurrence of `pat` in `s`, if any (`String.prototype.indexOf`). */
  function IndexOf(s: string, pat: string): (r: Option<nat>)
    requires pat != []
    ensures r.Some? ==> OccursAt(s, pat, r.value) && r.value + |pat| <= |s|
    decreases |s|
  {
    if s == [] then None
    else if pat <= s then
      assert s[0..] == s;
      Some(0)
    else
      match IndexOf(s[1..], pat)
      case None => None
      case Some(k) =>
        assert s[1..][k..] == s[k + 1..];
        Some(k + 1)
  }

  /** `IndexOf` finds the leftmost occurrence, and finds none only when
      there is none. */
  lemma {:induction false} IndexOfLeftmost(s: string, pat: string)
    requires pat != []
    ensures IndexOf(s, pat).Some? ==> forall j: nat :: j < IndexOf(s, pat).value ==> !OccursAt(s, pat, j)
    ensures IndexOf(s, pat).None? <==> !Contains(s, pat)
    decreases |s|
  {
    if s == [] {
    } else if pat <= s {
      assert s[0..] == s;
      assert OccursAt(s, pat, 0);
    } else {
      IndexOfLeftmost(s[1..], pat);
      OccursAtTail(s, pat);
      assert s[0..] == s;
    }
  }

  /** The first occurrence is unique: an occurrence with none before it is it. */
  lemma IndexOfFirst(s: string, pat: string, i: nat)
    requires pat != [] && OccursAt(s, pat, i)
    requires forall j: nat :: j < i ==> !OccursAt(s, pat, j)
    ensures IndexOf(s, pat) == Some(i)
  {
    IndexOfLeftmost(s, pat);
  }

  /** `s.split(sep)`: the pieces between successive leftmost occurrences. */
  function Split(s: string, sep: string): (r: seq<string>)
    requires sep != []
    ensures |r| >= 1
    decreases |s|
  {
    match IndexOf(s, sep)
    case None => [s]
    case Some(i) => [s[..i]] + Split(s[i + |sep|..], sep)
  }

  /** `xs.join(sep)`. */
  function Join(xs: seq<string>, sep: string): (r: string)
    ensures forall x :: x in xs ==> Contains(r, x)
  {
    if xs == [] then []
    else if |xs| == 1 then
      ContainsPrefix(xs[0], []);
      assert xs[0] + [] == xs[0];
      xs[0]
    else
      var rest := Join(xs[1..], sep);
      ContainsPrefix(xs[0], sep + rest);
      ContainsSuffix(xs[0] + sep, rest);
      assert xs[0] + (sep + rest) == xs[0] + sep + rest;
      assert forall x :: x in xs ==> x == xs[0] || x in xs[1..];
      xs[0] + sep + rest
  }

  lemma ContainsPrefix(a: string, b: string)
    ensures Contains(a + b, a)
  {
    assert OccursAt(a + b, a, 0) by {
      assert (a + b)[0..] == a + b;
    }
  }

  lemma ContainsSuffix(a: string, b: string)
    ensures forall x :: Contains(b, x) ==> Contains(a + b, x)
  {
    forall x | Contains(b, x) ensures Contains(a + b, x) {
      var i: nat :| i <= |b| && OccursAt(b, x, i);
      assert (a + b)[|a| + i..] == b[i..];
      assert OccursAt(a + b, x, |a| + i);
    }
  }

  /** Splitting at the first occurrence. */
  lemma SplitAt(s: string, sep: string, i: nat)
    requires sep != [] && IndexOf(s, sep) == Some(i)
    ensures Split(s, sep) == [s[..i]] + Split(s[i + |sep|..], sep)
    ensures s == s[..i] + sep + s[i + |sep|..]
  {
    AroundOccurrence(s, sep, i);
  }

  /** A text is what comes before an occurrence, the occurrence, and what
      comes after it. */
  lemma AroundOccurrence(s: string, sep: string, i: nat)
    requires OccursAt(s, sep, i)
    ensures s == s[..i] + sep + s[i + |sep|..]
  {
    var j := i + |sep|;
    assert s[i..][..|sep|] == s[i..j];
    assert s == s[..i] + s[i..j] + s[j..];
  }

  /** The first piece of a split is followed by the separator or ends the text. */
  lemma SplitHead(s: string, sep: string) returns (rest: string)
    requires sep != []
    ensures s == Split(s, sep)[0] + rest && (rest == [] || sep <= rest)
  {
    match IndexOf(s, sep)
    case None =>
      rest := [];
      assert s == s + rest;
    case Some(i) =>
      rest := s[i..];
      assert Split(s, sep)[0] == s[..i];
      assert OccursAt(s, sep, i);
      assert s == s[..i] + rest;
  }

  /** When the separator occurs, the second piece of a split is the text
      between its first occurrence and the next one, or the end. */
  lemma SecondPiece(s: string, sep: string) returns (first: string, rest: string)
    requires sep != [] && IndexOf(s, sep).Some?
    ensures |Split(s, sep)| >= 2
    ensures s == first + sep + Split(s, sep)[1] + rest
    ensures !Contains(first, sep) && !Contains(Split(s, sep)[1], sep)
    ensures rest == [] || sep <= rest
  {
    var i := IndexOf(s, sep).value;
    var after := s[i + |sep|..];
    first := s[..i];
    assert s == first + sep + after && Split(s, sep) == [first] + Split(after, sep) by {
      SplitAt(s, sep, i);
    }
    rest := SplitHead(after, sep);
    SplitPiecesFree(s, sep);
    assert Split(s, sep)[0] == first;
  }

  /** Joining the pieces of a split restores the text. */
  lemma {:induction false} JoinSplit(s: string, sep: string)
    requires sep != []
    ensures Join(Split(s, sep), sep) == s
    decreases |s|
  {
    match IndexOf(s, sep)
    case None =>
      assert Split(s, sep) == [s];
    case Some(i) =>
      var rest := s[i + |sep|..];
      SplitAt(s, sep, i);
      JoinSplit(rest, sep);
      JoinCons(s[..i], Split(rest, sep), sep);
  }

  lemma JoinCons(x: string, xs: seq<string>, sep: string)
    requires xs != []
    ensures Join([x] + xs, sep) == x + sep + Join(xs, sep)
  {
    assert ([x] + xs)[1..] == xs;
  }

  /** The text before the first occurrence does not contain the pattern. */
  lemma BeforeFirstFree(s: string, sep: string, i: nat)
    requires sep != [] && IndexOf(s, sep) == Some(i)
    ensures !Contains(s[..i], sep)
  {
    IndexOfLeftmost(s, sep);
    forall j: nat | j <= i && OccursAt(s[..i], sep, j) ensures false {
      assert s[..i][j..] == s[j..i];
      assert s[j..i] <= s[j..];
      assert OccursAt(s, sep, j);
    }
  }

  /** No piece of a split contains the separator. */
  lemma {:induction false} SplitPiecesFree(s: string, sep: string)
    requires sep != []
    ensures forall p :: p in Split(s, sep) ==> !Contains(p, sep)
    decreases |s|
  {
    IndexOfLeftmost(s, sep);
    match IndexOf(s, sep)
    case None =>
    case Some(i) =>
      SplitAt(s, sep, i);
      SplitPiecesFree(s[i + |sep|..], sep);
      BeforeFirstFree(s, sep, i);
  }

  /** No proper suffix of `sep` is also a prefix of it, so two occurrences
      of `sep` can never overlap. */
  predicate Unbordered(sep: string)
  {
    forall k :: 0 < k < |sep| ==> !(sep[k..] <= sep)
  }

  /** After a separator-free piece, the first occurrence of an unbordered
      separator is the one that follows the piece. */
  lemma FirstAfterPiece(x: string, sep: string, rest: string)
    requires sep != [] && Unbordered(sep) && !Contains(x, sep)
    ensures IndexOf(x + sep + rest, sep) == Some(|x|)
  {
    var s := x + sep + rest;
    assert s[|x|..] == sep + rest;
    assert OccursAt(s, sep, |x|);
    forall j: nat | j < |x| ensures !OccursAt(s, sep, j) {
      if j + |sep| <= |x| {
        InsidePiece(x, sep + rest, sep, j);
      } else {
        AcrossPiece(x, sep, rest, j);
      }
    }
    IndexOfFirst(s, sep, |x|);
  }

  lemma InsidePiece(x: string, y: string, sep: string, j: nat)
    requires j + |sep| <= |x| && !Contains(x, sep)
    ensures !OccursAt(x + y, sep, j)
  {
    assert (x + y)[j..j + |sep|] == x[j..j + |sep|];
    assert !OccursAt(x, sep, j);
  }

  lemma AcrossPiece(x: string, sep: string, rest: string, j: nat)
    requires Unbordered(sep) && j < |x| < j + |sep|
    ensures !OccursAt(x + sep + rest, sep, j)
  {
    var s := x + sep + rest;
    var k := |x| - j;
    assert s[|x|..j + |sep|] == sep[..|sep| - k];
    assert !(sep[k..] <= sep);
  }

  /** A separator whose first character does not occur again in it (such
      as `", "` or `": "`) is unbordered. */
  lemma FreshHeadUnbordered(sep: string)
    requires sep != [] && sep[0] !in sep[1..]
    ensures Unbordered(sep)
  {
    forall k | 0 < k < |sep| ensures !(sep[k..] <= sep) {
      assert sep[k..][0] == sep[1..][k - 1];
    }
  }

  /** Splitting the join of separator-free pieces gives the pieces back. */
  lemma {:induction false} SplitJoin(xs: seq<string>, sep: string)
    requires sep != [] && Unbordered(sep) && xs != []
    requires forall x :: x in xs ==> !Contains(x, sep)
    ensures Split(Join(xs, sep), sep) == xs
    decreases |xs|
  {
    if |xs| == 1 {
      assert xs[0] in xs;
      IndexOfLeftmost(xs[0], sep);
    } else {
      var x, rest := xs[0], Join(xs[1..], sep);
      assert x in xs;
      assert Join(xs, sep) == x + sep + rest;
      FirstAfterPiece(x, sep, rest);
      assert (x + sep + rest)[|x| + |sep|..] == rest;
      assert (x + sep + rest)[..|x|] == x;
      assert Split(x + sep + rest, sep) == [x] + Split(rest, sep);
      SplitJoin(xs[1..], sep);
      assert xs == [x] + xs[1..];
    }
  }

  // ---------------------------------------------------------------------
  // Decimal numerals (`String(n)` for a non-negative integer)

  predicate IsDigits(s: string)
  {
    forall i :: 0 <= i < |s| ==> '0' <= s[i] <= '9'
  }

  function DigitChar(d: nat): (c: char)
    requires d < 10
    ensures '0' <= c <= '9' && c as int - '0' as int == d
  {
    ('0' as int + d) as char
  }

  /** The decimal numeral of `n`, without leading zeros. */
  function NatToString(n: nat): (r: string)
    ensures |r| >= 1 && IsDigits(r)
    ensures r[0] == '0' ==> n == 0
    decreases n
  {
    if n < 10 then [DigitChar(n)]
    else NatToString(n / 10) + [DigitChar(n % 10)]
  }

  /** The value a string of decimal digits denotes. */
  function DecimalValue(s: string): nat
    requires IsDigits(s)
    decreases |s|
  {
    if s == [] then 0
    else DecimalValue(s[..|s| - 1]) * 10 + (s[|s| - 1] as int - '0' as int)
  }

  /** Reading the numeral back gives the number. */
  lemma {:induction false} DecimalRoundTrip(n: nat)
    ensures DecimalValue(NatToString(n)) == n
    decreases n
  {
    if n >= 10 {
      DecimalRoundTrip(n / 10);
      var r := NatToString(n);
      assert r[..|r| - 1] == NatToString(n / 10);
    }
  }

  /** Distinct numbers have distinct numerals. */
  lemma NatToStringInjective(m: nat, n: nat)
    requires NatToString(m) == NatToString(n)
    ensures m == n
  {
    DecimalRoundTrip(m);
    DecimalRoundTrip(n);
  }

  // ---------------------------------------------------------------------
  // Upper case (`String.prototype.toUpperCase`, Basic Latin and Latin-1)

  /** The letters whose upper-case form is 32 code points lower: a-z and
      the Latin-1 small letters U+00E0..U+00FE other than U+00F7. */
  predicate IsSmallLetter(c: char)
  {
    'a' <= c <= 'z' || ('\U{E0}' <= c <= '\U{FE}' && c != '\U{F7}')
  }

  function UpperChar(c: char): (u: char)
    ensures IsSmallLetter(c) ==> u as int == c as int - 32
    ensures !('a' <= u <= 'z')
    ensures u == '$' <==> c == '$'
    ensures IsSmallLetter(c) || u == c
  {
    if IsSmallLetter(c) then (c as int - 32) as char else c
  }

  function Upper(s: string): (r: string)
    ensures |r| == |s| && forall i :: 0 <= i < |s| ==> r[i] == UpperChar(s[i])
  {
    seq(|s|, i requires 0 <= i < |s| => UpperChar(s[i]))
  }

  /** Upper-casing keeps a replacement free of replacement patterns. */
  lemma UpperLiteral(rep: string)
    requires LiteralReplacement(rep)
    ensures LiteralReplacement(Upper(rep))
  {
    var u := Upper(rep);
    forall i | 0 <= i < |u| - 1 && u[i] == '$' ensures u[i + 1] !in "$&`'" {
      assert rep[i] == '$';
      assert rep[i + 1] !in "$&`'";
    }
  }
}
