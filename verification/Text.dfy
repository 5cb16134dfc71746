/** The string functions of the standard library that the other modules rely on. Strings are
    sequences of runes. */
module Text {

  /** Unicode white space. */
  predicate IsSpace(c: char) {
    || '\t' <= c <= '\r' || c == ' ' || c == '\U{0085}' || c == '\U{00A0}' || c == '\U{1680}'
    || '\U{2000}' <= c <= '\U{200A}' || c == '\U{2028}' || c == '\U{2029}' || c == '\U{202F}'
    || c == '\U{205F}' || c == '\U{3000}'
  }

  function TrimLeft(s: string): string {
    if s != "" && IsSpace(s[0]) then TrimLeft(s[1..]) else s
  }

  function TrimRight(s: string): string {
    if s != "" && IsSpace(s[|s| - 1]) then TrimRight(s[..|s| - 1]) else s
  }

  function TrimSpace(s: string): string {
    TrimRight(TrimLeft(s))
  }

  predicate AllSpace(s: string) {
    forall i :: 0 <= i < |s| ==> IsSpace(s[i])
  }

  lemma {:induction false} TrimLeftCuts(s: string) returns (left: string)
    ensures s == left + TrimLeft(s) && AllSpace(left)
    ensures TrimLeft(s) != "" ==> !IsSpace(TrimLeft(s)[0])
    decreases |s|
  {
    if s != "" && IsSpace(s[0]) {
      var l := TrimLeftCuts(s[1..]);
      left := [s[0]] + l;
    } else {
      left := "";
    }
  }

  lemma {:induction false} TrimRightCuts(s: string) returns (right: string)
    ensures s == TrimRight(s) + right && AllSpace(right)
    ensures TrimRight(s) != "" ==> !IsSpace(TrimRight(s)[|TrimRight(s)| - 1]) && TrimRight(s)[0] == s[0]
    decreases |s|
  {
    if s != "" && IsSpace(s[|s| - 1]) {
      var r := TrimRightCuts(s[..|s| - 1]);
      right := r + [s[|s| - 1]];
    } else {
      right := "";
    }
  }

  /** Trimming cuts white space off both ends, and all of it. */
  lemma TrimSpaceCuts(s: string) returns (left: string, right: string)
    ensures s == left + TrimSpace(s) + right && AllSpace(left) && AllSpace(right)
    ensures TrimSpace(s) != "" ==> !IsSpace(TrimSpace(s)[0]) && !IsSpace(TrimSpace(s)[|TrimSpace(s)| - 1])
  {
    left := TrimLeftCuts(s);
    right := TrimRightCuts(TrimLeft(s));
  }

  lemma BlankIsAllSpace(s: string)
    ensures TrimSpace(s) == "" <==> AllSpace(s)
  {
    var left, right := TrimSpaceCuts(s);
    assert TrimSpace(s) != "" ==> s[|left|] == TrimSpace(s)[0];
  }

  function FirstNonEmpty(a: string, b: string): string {
    if a != "" then a else b
  }

  /** ASCII lower case, as `LOWER` in SQL. */
  function Lower(s: string): string {
    seq(|s|, i requires 0 <= i < |s| => if 'A' <= s[i] <= 'Z' then s[i] + 32 as char else s[i])
  }

  predicate SameLetter(a: char, b: char) {
    || a == b
    || ('A' <= a <= 'Z' && b as int == a as int + 32)
    || ('A' <= b <= 'Z' && a as int == b as int + 32)
  }

  /** Two strings are equal in lower case if and only if they differ in the case of ASCII letters at most. */
  lemma LowerIgnoresCase(s: string, t: string)
    ensures Lower(s) == Lower(t) <==> |s| == |t| && forall i :: 0 <= i < |s| ==> SameLetter(s[i], t[i])
  {
    if Lower(s) == Lower(t) {
      assert |Lower(s)| == |s| && |Lower(t)| == |t|;
      forall i | 0 <= i < |s|
        ensures SameLetter(s[i], t[i])
      {
        assert Lower(s)[i] == Lower(t)[i];
      }
    }
  }

  // ---------------------------------------------------------------------------------------------
  // Searching and replacing
  // ---------------------------------------------------------------------------------------------

  predicate OccursAt(s: string, sub: string, i: nat) {
    i + |sub| <= |s| && s[i..i + |sub|] == sub
  }

  predicate Contains(s: string, sub: string) {
    exists i: nat :: i <= |s| && OccursAt(s, sub, i)
  }

  /** Replaces non-overlapping occurrences from left to right. */
  function ReplaceAll(s: string, what: string, repl: string): string
    requires what != ""
  {
    if |s| < |what| then s
    else if what <= s then repl + ReplaceAll(s[|what|..], what, repl)
    else [s[0]] + ReplaceAll(s[1..], what, repl)
  }

  function Repeat(s: string, n: nat): string {
    if n == 0 then "" else s + Repeat(s, n - 1)
  }

  // ---------------------------------------------------------------------------------------------
  // Splitting and joining
  // ---------------------------------------------------------------------------------------------

  /** The pieces between the separators; always at least one. */
  function Split(s: string, sep: string): (pieces: seq<string>)
    requires sep != ""
    ensures pieces != []
  {
    SplitFrom("", s, sep)
  }

  function SplitFrom(piece: string, s: string, sep: string): (pieces: seq<string>)
    requires sep != ""
    ensures pieces != []
    decreases |s|
  {
    if s == "" then [piece]
    else if sep <= s then [piece] + SplitFrom("", s[|sep|..], sep)
    else SplitFrom(piece + [s[0]], s[1..], sep)
  }

  function Join(pieces: seq<string>, sep: string): string {
    if pieces == [] then ""
    else if |pieces| == 1 then pieces[0]
    else pieces[0] + sep + Join(pieces[1..], sep)
  }

  lemma ReplaceStep(s: string, what: string, repl: string)
    requires what != "" && s != "" && !(what <= s)
    ensures ReplaceAll(s, what, repl) == [s[0]] + ReplaceAll(s[1..], what, repl)
  {
    if |s| < |what| {
      assert s == [s[0]] + s[1..];
    }
  }

  lemma JoinFirst(piece: string, rest: seq<string>, sep: string)
    requires rest != []
    ensures Join([piece] + rest, sep) == piece + sep + Join(rest, sep)
  {
    assert ([piece] + rest)[1..] == rest;
  }

  lemma Regroup(a: string, b: string, c: string)
    ensures a + b + c == a + (b + c)
  {
  }

  lemma {:induction false} ReplaceFrom(piece: string, s: string, what: string, repl: string)
    requires what != ""
    ensures Join(SplitFrom(piece, s, what), repl) == piece + ReplaceAll(s, what, repl)
    decreases |s|
  {
    if s == "" {
      assert piece + "" == piece;
    } else if what <= s {
      var rest, tail := SplitFrom("", s[|what|..], what), ReplaceAll(s[|what|..], what, repl);
      ReplaceFrom("", s[|what|..], what, repl);
      JoinFirst(piece, rest, repl);
      Regroup(piece, repl, tail);
      assert "" + tail == tail;
    } else {
      ReplaceStep(s, what, repl);
      ReplaceFrom(piece + [s[0]], s[1..], what, repl);
      Regroup(piece, [s[0]], ReplaceAll(s[1..], what, repl));
    }
  }

  /** Replacing is splitting at what is replaced, and joining the pieces with the replacement. */
  lemma ReplaceIsJoin(s: string, what: string, repl: string)
    requires what != ""
    ensures ReplaceAll(s, what, repl) == Join(Split(s, what), repl)
  {
    ReplaceFrom("", s, what, repl);
  }

  lemma {:induction false} ReplaceByItself(s: string, what: string)
    requires what != ""
    ensures ReplaceAll(s, what, what) == s
    decreases |s|
  {
    if |s| >= |what| {
      ReplaceByItself(if what <= s then s[|what|..] else s[1..], what);
    }
  }

  /** Joining undoes splitting, for every separator. */
  lemma JoinOfSplit(s: string, sep: string)
    requires sep != ""
    ensures Join(Split(s, sep), sep) == s
  {
    ReplaceIsJoin(s, sep, sep);
    ReplaceByItself(s, sep);
  }

  lemma OccursInPrefix(a: string, b: string, sub: string, i: nat)
    ensures OccursAt(a, sub, i) ==> OccursAt(a + b, sub, i)
  {
    if OccursAt(a, sub, i) {
      assert (a + b)[i..i + |sub|] == a[i..i + |sub|];
    }
  }

  lemma OccursAtSeam(a: string, b: string, sub: string)
    ensures OccursAt(a + b, sub, |a|) <==> sub <= b
  {
    if |sub| <= |b| {
      assert (a + b)[|a|..|a| + |sub|] == b[..|sub|];
    }
  }

  lemma {:induction false} PiecesFrom(piece: string, s: string, sep: string)
    requires sep != "" && forall i: nat :: i < |piece| ==> !OccursAt(piece + s, sep, i)
    ensures forall p :: p in SplitFrom(piece, s, sep) ==> !Contains(p, sep)
    decreases |s|
  {
    forall i: nat
      ensures !OccursAt(piece, sep, i)
    {
      OccursInPrefix(piece, s, sep, i);
    }
    if s != "" {
      OccursAtSeam(piece, s, sep);
      if sep <= s {
        PiecesFrom("", s[|sep|..], sep);
      } else {
        assert (piece + [s[0]]) + s[1..] == piece + s;
        PiecesFrom(piece + [s[0]], s[1..], sep);
      }
    }
  }

  /** No piece contains the separator. */
  lemma PiecesLackSeparator(s: string, sep: string)
    requires sep != ""
    ensures forall p :: p in Split(s, sep) ==> !Contains(p, sep)
  {
    PiecesFrom("", s, sep);
  }

  lemma ContainsIsInside(s: string, sub: string)
    ensures Contains(s, sub) <==> exists a, b :: s == a + sub + b
  {
    if Contains(s, sub) {
      var i: nat :| i <= |s| && OccursAt(s, sub, i);
      assert s == s[..i] + sub + s[i + |sub|..];
    }
    if a, b :| s == a + sub + b {
      assert s[|a|..|a| + |sub|] == sub;
      assert OccursAt(s, sub, |a|);
    }
  }

  predicate CommaFree(s: string) {
    ',' !in s
  }

  lemma StartsWithComma(s: string)
    requires s != ""
    ensures "," <= s <==> s[0] == ','
  {
    assert s == [s[0]] + s[1..];
    if s[0] == ',' { assert [s[0]] == ","; }
  }

  lemma {:induction false} SplitAtComma(piece: string, s: string, rest: string)
    requires CommaFree(s)
    ensures SplitFrom(piece, s + "," + rest, ",") == [piece + s] + SplitFrom("", rest, ",")
    ensures SplitFrom(piece, s, ",") == [piece + s]
    decreases |s|
  {
    var t := s + "," + rest;
    if s == "" {
      assert t[|","|..] == rest;
      assert piece + s == piece;
    } else {
      assert t[1..] == s[1..] + "," + rest;
      assert s[0] in s && forall c :: c in s[1..] ==> c in s;
      StartsWithComma(s);
      StartsWithComma(t);
      assert t[0] == s[0];
      SplitAtComma(piece + [s[0]], s[1..], rest);
      assert piece + [s[0]] + s[1..] == piece + s;
    }
  }

  /** Splitting undoes joining, for pieces that do not contain the separator. */
  lemma {:induction false} SplitOfJoin(pieces: seq<string>)
    requires pieces != [] && forall p :: p in pieces ==> CommaFree(p)
    ensures Split(Join(pieces, ","), ",") == pieces
    decreases |pieces|
  {
    if |pieces| == 1 {
      SplitAtComma("", pieces[0], "");
      assert "" + pieces[0] == pieces[0];
    } else {
      SplitOfJoin(pieces[1..]);
      SplitAtComma("", pieces[0], Join(pieces[1..], ","));
      assert "" + pieces[0] == pieces[0];
    }
  }

  lemma {:induction false} PiecesAreCommaFree(piece: string, s: string)
    requires CommaFree(piece)
    ensures forall p :: p in SplitFrom(piece, s, ",") ==> CommaFree(p)
    decreases |s|
  {
    if s != "" {
      StartsWithComma(s);
      PiecesAreCommaFree(if s[0] == ',' then "" else piece + [s[0]], s[1..]);
    }
  }

  /** The trimmed pieces that are not blank. */
  function SplitAndTrimSpace(s: string, sep: string): seq<string>
    requires sep != ""
  {
    RemoveBlankStrings(TrimAll(Split(s, sep)))
  }

  function TrimAll(pieces: seq<string>): seq<string> {
    if pieces == [] then [] else [TrimSpace(pieces[0])] + TrimAll(pieces[1..])
  }

  function RemoveBlankStrings(pieces: seq<string>): (kept: seq<string>)
    ensures forall p :: p in kept <==> p in pieces && TrimSpace(p) != ""
  {
    if pieces == [] then []
    else if TrimSpace(pieces[0]) != "" then [pieces[0]] + RemoveBlankStrings(pieces[1..])
    else RemoveBlankStrings(pieces[1..])
  }

  /** The strings that are kept stay in order, and as often as they were there: each string is kept or
      dropped by itself. */
  lemma {:induction false} RemoveBlankConcat(a: seq<string>, b: seq<string>)
    ensures RemoveBlankStrings(a + b) == RemoveBlankStrings(a) + RemoveBlankStrings(b)
    ensures forall p :: RemoveBlankStrings([p]) == if TrimSpace(p) != "" then [p] else []
    decreases |a|
  {
    assert forall p :: RemoveBlankStrings([p][1..]) == [];
    if a == [] {
      assert a + b == b;
    } else {
      assert (a + b)[1..] == a[1..] + b;
      RemoveBlankConcat(a[1..], b);
    }
  }

  lemma TrimmedStays(s: string)
    ensures TrimSpace(TrimSpace(s)) == TrimSpace(s)
  {
    var left, right := TrimSpaceCuts(s);
  }

  /** What is left of a list: its pieces, trimmed, if they are not all white space. */
  lemma SplitAndTrimIs(s: string, sep: string, w: string)
    requires sep != ""
    ensures w in SplitAndTrimSpace(s, sep) <==> w != "" && exists p :: p in Split(s, sep) && w == TrimSpace(p)
  {
    TrimAllIs(Split(s, sep), w);
    if p :| p in Split(s, sep) && w == TrimSpace(p) {
      TrimmedStays(p);
    }
    assert TrimSpace("") == "";
  }

  lemma {:induction false} TrimAllIs(pieces: seq<string>, w: string)
    ensures w in TrimAll(pieces) <==> exists p :: p in pieces && w == TrimSpace(p)
    decreases |pieces|
  {
    if pieces != [] {
      TrimAllIs(pieces[1..], w);
      assert forall p :: p in pieces <==> p == pieces[0] || p in pieces[1..];
    }
  }

  lemma {:induction false} TrimKeepsRunes(s: string, c: char)
    ensures c in TrimLeft(s) ==> c in s
    ensures c in TrimRight(s) ==> c in s
    decreases |s|
  {
    if s != "" {
      TrimKeepsRunes(s[1..], c);
      TrimKeepsRunes(s[..|s| - 1], c);
    }
  }

  lemma {:induction false} TrimmedPieces(pieces: seq<string>)
    requires forall p :: p in pieces ==> CommaFree(p)
    ensures forall p :: p in TrimAll(pieces) ==> CommaFree(p)
    ensures forall p :: p in pieces ==> TrimSpace(p) in TrimAll(pieces)
    decreases |pieces|
  {
    if pieces != [] {
      TrimmedPieces(pieces[1..]);
      TrimKeepsRunes(TrimLeft(pieces[0]), ',');
      TrimKeepsRunes(pieces[0], ',');
      assert pieces[0] in pieces;
    }
  }

  // ---------------------------------------------------------------------------------------------
  // Numbers
  // ---------------------------------------------------------------------------------------------

  predicate IsDigit(c: char) {
    '0' <= c <= '9'
  }

  function Digit(n: nat): (c: char)
    requires n < 10
    ensures IsDigit(c) && c as int - '0' as int == n
  {
    (n + '0' as int) as char
  }

  predicate AllDigits(s: string) {
    forall i :: 0 <= i < |s| ==> IsDigit(s[i])
  }

  /** The number as `%d` writes it. */
  function Decimal(n: nat): (s: string)
    ensures s != "" && AllDigits(s)
  {
    if n < 10 then [Digit(n)] else Decimal(n / 10) + [Digit(n % 10)]
  }

  function ParseDigits(s: string): nat
    requires AllDigits(s)
  {
    if s == "" then 0 else 10 * ParseDigits(s[..|s| - 1]) + (s[|s| - 1] as int - '0' as int)
  }

  lemma {:induction false} ParseOfDecimal(n: nat)
    ensures ParseDigits(Decimal(n)) == n
  {
    if n < 10 {
      assert [Digit(n)][..0] == "";
    } else {
      var s := Decimal(n);
      assert s[..|s| - 1] == Decimal(n / 10);
      ParseOfDecimal(n / 10);
    }
  }

  lemma {:induction false} NoLeadingZero(n: nat)
    requires n > 0
    ensures Decimal(n)[0] != '0'
  {
    if n >= 10 {
      NoLeadingZero(n / 10);
    }
  }

  lemma DecimalInjective(m: nat, n: nat)
    ensures Decimal(m) == Decimal(n) <==> m == n
  {
    ParseOfDecimal(m);
    ParseOfDecimal(n);
  }

  function BoolString(b: bool): string {
    if b then "true" else "false"
  }

  const MAX_INT: int := 0x7FFF_FFFF_FFFF_FFFF

  /** An integer of the machine's width. */
  predicate IsInt64(n: int) {
    -MAX_INT - 1 <= n <= MAX_INT
  }

  function IntString(n: int): string {
    if n < 0 then "-" + Decimal(-n) else Decimal(n)
  }

  /** The value `strconv.Atoi` returns, errors ignored: 0 for what is no number, the nearest end of the
      range for what does not fit. */
  function Atoi(s: string): int {
    var signed := s != "" && (s[0] == '-' || s[0] == '+');
    var digits := if signed then s[1..] else s;
    if digits == "" || !AllDigits(digits) then 0
    else
      var n: int := ParseDigits(digits);
      if s[0] == '-' then (if n > MAX_INT + 1 then -MAX_INT - 1 else -n)
      else if n > MAX_INT then MAX_INT else n
  }

  lemma AtoiOfDecimal(n: nat)
    requires n <= MAX_INT
    ensures Atoi(Decimal(n)) == n
  {
    ParseOfDecimal(n);
    assert IsDigit(Decimal(n)[0]);
  }

  lemma AtoiOfNegated(n: int)
    requires 0 < n <= MAX_INT + 1
    ensures Atoi("-" + Decimal(n)) == -n
  {
    ParseOfDecimal(n);
    var s := "-" + Decimal(n);
    assert s[0] == '-' && s[1..] == Decimal(n);
  }

  lemma AtoiOfIntString(n: int)
    requires IsInt64(n)
    ensures Atoi(IntString(n)) == n
  {
    if n < 0 {
      AtoiOfNegated(-n);
    } else {
      AtoiOfDecimal(n);
    }
  }
}
