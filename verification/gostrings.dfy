/** Models of the pieces of Go's `strings` and `strconv` packages that the
    request codec is built from. A `char` stands for one byte of the
    connection; white space and case mapping follow Go's rules for ASCII. */
module GoStrings {
  import opened Results

  // ---------------------------------------------------------------------
  // Character classes

  /** Go's white space on ASCII input: '\t', '\n', '\v', '\f', '\r', ' '. */
  predicate IsSpace(c: char) {
    c == ' ' || c == '\t' || c == '\n' || c == '\U{B}' || c == '\U{C}' || c == '\r'
  }

  predicate NoSpace(s: string) {
    forall i :: 0 <= i < |s| ==> !IsSpace(s[i])
  }

  predicate AllSpace(s: string) {
    forall i :: 0 <= i < |s| ==> IsSpace(s[i])
  }

  predicate IsDigit(c: char) {
    '0' <= c <= '9'
  }

  predicate AllDigits(s: string) {
    forall i :: 0 <= i < |s| ==> IsDigit(s[i])
  }

  // ---------------------------------------------------------------------
  // Trimming (strings.TrimLeftFunc, TrimRightFunc, TrimFunc, TrimSpace,
  // Trim and TrimRight with a cutset)

  /** The first position at or after i whose character fails p, or |s|. */
  function SkipLeft(s: string, p: char -> bool, i: nat): (a: nat)
    requires i <= |s|
    ensures i <= a <= |s|
    ensures a < |s| ==> !p(s[a])
    decreases |s| - i
  {
    if i == |s| || !p(s[i]) then i else SkipLeft(s, p, i + 1)
  }

  lemma {:induction false} SkipLeftDropped(s: string, p: char -> bool, i: nat)
    requires i <= |s|
    ensures forall j :: i <= j < SkipLeft(s, p, i) ==> p(s[j])
    decreases |s| - i
  {
    if i < |s| && p(s[i]) {
      SkipLeftDropped(s, p, i + 1);
    }
  }

  /** The skip stops exactly at the first failing position. */
  lemma {:induction false} SkipLeftIs(s: string, p: char -> bool, i: nat, a: nat)
    requires i <= a <= |s|
    requires forall j :: i <= j < a ==> p(s[j])
    requires a < |s| ==> !p(s[a])
    ensures SkipLeft(s, p, i) == a
    decreases a - i
  {
    if i < a {
      SkipLeftIs(s, p, i + 1, a);
    }
  }

  /** The end of the longest stretch [lo, b) whose successors up to j all
      satisfy p: the last position, going down from j to lo, after a
      character that fails p. */
  function SkipRight(s: string, p: char -> bool, lo: nat, j: nat): (b: nat)
    requires lo <= j <= |s|
    ensures lo <= b <= j
    ensures b > lo ==> !p(s[b - 1])
    decreases j
  {
    if j == lo || !p(s[j - 1]) then j else SkipRight(s, p, lo, j - 1)
  }

  lemma {:induction false} SkipRightDropped(s: string, p: char -> bool, lo: nat, j: nat)
    requires lo <= j <= |s|
    ensures forall k :: SkipRight(s, p, lo, j) <= k < j ==> p(s[k])
    decreases j
  {
    if j > lo && p(s[j - 1]) {
      SkipRightDropped(s, p, lo, j - 1);
    }
  }

  lemma {:induction false} SkipRightIs(s: string, p: char -> bool, lo: nat, j: nat, b: nat)
    requires lo <= b <= j <= |s|
    requires forall k :: b <= k < j ==> p(s[k])
    requires b > lo ==> !p(s[b - 1])
    ensures SkipRight(s, p, lo, j) == b
    decreases j - b
  {
    if b < j {
      SkipRightIs(s, p, lo, j - 1, b);
    }
  }

  /** Drops the longest prefix whose characters all satisfy p. */
  function TrimLeftFunc(s: string, p: char -> bool): (r: string)
    ensures |r| <= |s| && r == s[|s| - |r|..]
    ensures r == [] || !p(r[0])
  {
    s[SkipLeft(s, p, 0)..]
  }

  /** Drops the longest suffix whose characters all satisfy p. */
  function TrimRightFunc(s: string, p: char -> bool): (r: string)
    ensures |r| <= |s| && r == s[..|r|]
    ensures r == [] || !p(r[|r| - 1])
  {
    s[..SkipRight(s, p, 0, |s|)]
  }

  /** Every character TrimLeftFunc drops satisfies p. */
  lemma TrimLeftDropped(s: string, p: char -> bool)
    ensures forall i :: 0 <= i < |s| - |TrimLeftFunc(s, p)| ==> p(s[i])
  {
    SkipLeftDropped(s, p, 0);
  }

  /** Every character TrimRightFunc drops satisfies p. */
  lemma TrimRightDropped(s: string, p: char -> bool)
    ensures forall i :: |TrimRightFunc(s, p)| <= i < |s| ==> p(s[i])
  {
    SkipRightDropped(s, p, 0, |s|);
  }

  /** Drops both the longest prefix and the longest suffix whose
      characters satisfy p. */
  function TrimFunc(s: string, p: char -> bool): (r: string)
    ensures |r| <= |s|
  {
    var a := SkipLeft(s, p, 0);
    s[a..SkipRight(s, p, a, |s|)]
  }

  function TrimSpace(s: string): string {
    TrimFunc(s, IsSpace)
  }

  /** The character class of a cutset. */
  function InCutset(cutset: string): char -> bool {
    c => c in cutset
  }

  /** strings.Trim: drops leading and trailing characters found in cutset. */
  function Trim(s: string, cutset: string): string {
    TrimFunc(s, InCutset(cutset))
  }

  /** strings.TrimRight: drops trailing characters found in cutset. */
  function TrimRight(s: string, cutset: string): string {
    TrimRightFunc(s, InCutset(cutset))
  }

  /** Right trimming ignores a trailing character of the class. */
  lemma TrimRightSnoc(x: string, c: char, p: char -> bool)
    requires p(c)
    ensures TrimRightFunc(x + [c], p) == TrimRightFunc(x, p)
  {
    var s := x + [c];
    var b := SkipRight(x, p, 0, |x|);
    SkipRightDropped(x, p, 0, |x|);
    forall k | b <= k < |s| ensures p(s[k]) {
      if k < |x| {
        assert s[k] == x[k];
      }
    }
    assert b > 0 ==> s[b - 1] == x[b - 1];
    SkipRightIs(s, p, 0, |s|, b);
    assert s[..b] == x[..b];
  }

  /** Right trimming keeps a string that does not end in the class. */
  lemma TrimRightKeep(x: string, p: char -> bool)
    requires x == [] || !p(x[|x| - 1])
    ensures TrimRightFunc(x, p) == x
  {
    SkipRightIs(x, p, 0, |x|, |x|);
  }

  /** TrimFunc keeps exactly s[a..b] when everything before a and from b
      on satisfies p and, if anything is kept, its two ends do not. */
  lemma TrimFuncIs(s: string, p: char -> bool, a: nat, b: nat)
    requires a <= b <= |s|
    requires forall j :: 0 <= j < a ==> p(s[j])
    requires forall j :: b <= j < |s| ==> p(s[j])
    requires a < b ==> !p(s[a]) && !p(s[b - 1])
    ensures TrimFunc(s, p) == s[a..b]
  {
    if a < b {
      SkipLeftIs(s, p, 0, a);
      SkipRightIs(s, p, a, |s|, b);
    } else {
      SkipLeftIs(s, p, 0, |s|);
    }
  }

  /** Everything TrimFunc drops satisfies p: s is the kept text with
      p-characters on both sides. */
  lemma TrimFuncDropped(s: string, p: char -> bool)
    ensures var a := SkipLeft(s, p, 0);
      && a + |TrimFunc(s, p)| <= |s|
      && s[a..a + |TrimFunc(s, p)|] == TrimFunc(s, p)
      && (forall j :: 0 <= j < a ==> p(s[j]))
      && (forall j :: a + |TrimFunc(s, p)| <= j < |s| ==> p(s[j]))
  {
    var a := SkipLeft(s, p, 0);
    SkipLeftDropped(s, p, 0);
    SkipRightDropped(s, p, a, |s|);
    assert s[a..a + |TrimFunc(s, p)|] == TrimFunc(s, p);
  }

  /** Trimming recovers the core of a string padded on both sides by
      characters of the class, as long as the core starts and ends outside
      the class: the trims remove the padding and nothing else. */
  lemma TrimFuncExact(pre: string, core: string, post: string, p: char -> bool)
    requires forall i :: 0 <= i < |pre| ==> p(pre[i])
    requires forall i :: 0 <= i < |post| ==> p(post[i])
    requires core != [] && !p(core[0]) && !p(core[|core| - 1])
    ensures TrimFunc(pre + core + post, p) == core
  {
    var s := pre + core + post;
    var b := |pre| + |core|;
    forall j | 0 <= j < |pre| ensures p(s[j]) {
      assert s[j] == pre[j];
    }
    forall j | b <= j < |s| ensures p(s[j]) {
      assert s[j] == post[j - b];
    }
    assert s[|pre|] == core[0] && s[b - 1] == core[|core| - 1];
    TrimFuncIs(s, p, |pre|, b);
    assert s[|pre|..b] == core;
  }

  /** A string made only of characters of the class trims to nothing. */
  lemma TrimLeftAll(s: string, p: char -> bool)
    requires forall i :: 0 <= i < |s| ==> p(s[i])
    ensures TrimLeftFunc(s, p) == []
  {
    SkipLeftIs(s, p, 0, |s|);
  }

  /** A line trims to nothing exactly when it is white space throughout. */
  lemma TrimSpaceEmpty(s: string)
    ensures TrimSpace(s) == [] <==> AllSpace(s)
  {
    if AllSpace(s) {
      TrimFuncIs(s, IsSpace, |s|, |s|);
    } else {
      var i :| 0 <= i < |s| && !IsSpace(s[i]);
      var a := SkipLeft(s, IsSpace, 0);
      SkipLeftDropped(s, IsSpace, 0);
      assert a <= i;
      assert a < |s|;
      assert SkipRight(s, IsSpace, a, |s|) > a by {
        SkipRightDropped(s, IsSpace, a, |s|);
      }
    }
  }

  // ---------------------------------------------------------------------
  // Searching (strings.IndexByte, strings.Index, Contains, HasPrefix)

  /** The first index of c in s, or -1 when c does not occur. */
  function IndexByte(s: string, c: char): (r: int)
    ensures -1 <= r < |s|
    ensures r == -1 <==> c !in s
    ensures r >= 0 ==> r < |s| && s[r] == c && c !in s[..r]
    decreases |s|
  {
    if s == [] then -1
    else if s[0] == c then 0
    else
      var k := IndexByte(s[1..], c);
      if k == -1 then -1
      else
        assert s[..k + 1] == [s[0]] + s[1..][..k];
        k + 1
  }

  /** sub occurs in s starting at position i. */
  predicate OccursAt(s: string, sub: string, i: int) {
    0 <= i && i + |sub| <= |s| && s[i..i + |sub|] == sub
  }

  function IndexFrom(s: string, sub: string, from: nat): (r: int)
    ensures r == -1 || (from <= r && OccursAt(s, sub, r))
    ensures forall i :: from <= i && (r == -1 || i < r) ==> !OccursAt(s, sub, i)
    decreases |s| - from
  {
    if from + |sub| > |s| then -1
    else if s[from..from + |sub|] == sub then from
    else IndexFrom(s, sub, from + 1)
  }

  /** strings.Index: the first position where sub occurs in s, or -1. */
  function Index(s: string, sub: string): (r: int)
    ensures r == -1 <==> forall i :: !OccursAt(s, sub, i)
    ensures r >= 0 ==> OccursAt(s, sub, r) && forall i :: 0 <= i < r ==> !OccursAt(s, sub, i)
  {
    IndexFrom(s, sub, 0)
  }

  /** The first occurrence is unique: any occurrence with none before it is
      the one Index reports. */
  lemma {:induction false} IndexIs(s: string, sub: string, k: nat)
    requires OccursAt(s, sub, k)
    requires forall i :: 0 <= i < k ==> !OccursAt(s, sub, i)
    ensures Index(s, sub) == k
  {
  }

  function Contains(s: string, sub: string): bool {
    Index(s, sub) != -1
  }

  function HasPrefix(s: string, prefix: string): bool {
    |prefix| <= |s| && s[..|prefix|] == prefix
  }

  function TrimPrefix(s: string, prefix: string): string {
    if HasPrefix(s, prefix) then s[|prefix|..] else s
  }

  /** Occurrences inside a prefix are occurrences in the whole string. */
  lemma {:induction false} OccursInPrefix(x: string, y: string, sub: string, i: int)
    requires 0 <= i && i + |sub| <= |x|
    ensures OccursAt(x + y, sub, i) == OccursAt(x, sub, i)
  {
    assert (x + y)[i..i + |sub|] == x[i..i + |sub|];
  }

  // ---------------------------------------------------------------------
  // Splitting and joining (strings.SplitN(s, c, 2), Split, Join)

  /** strings.SplitN(s, [c], 2): None when c does not occur (one piece),
      otherwise the text before and after the first c. */
  function Cut(s: string, c: char): (r: Option<(string, string)>)
    ensures r.None? <==> c !in s
    ensures r.Some? ==> s == r.value.0 + [c] + r.value.1 && c !in r.value.0
  {
    var i := IndexByte(s, c);
    if i == -1 then None
    else
      assert s == s[..i] + [c] + s[i + 1..];
      Some((s[..i], s[i + 1..]))
  }

  /** The first occurrence of c in a + [c] + b is the one after a. */
  lemma {:induction false} IndexByteAt(a: string, c: char, b: string)
    requires c !in a
    ensures IndexByte(a + [c] + b, c) == |a|
    decreases |a|
  {
    if a != [] {
      assert (a + [c] + b)[1..] == a[1..] + [c] + b;
      IndexByteAt(a[1..], c, b);
    }
  }

  /** Cutting a + [c] + b at c, with c not in a, gives back a and b. */
  lemma CutAt(a: string, c: char, b: string)
    requires c !in a
    ensures Cut(a + [c] + b, c) == Some((a, b))
  {
    var s := a + [c] + b;
    IndexByteAt(a, c, b);
    assert s[..|a|] == a && s[|a| + 1..] == b;
  }

  /** strings.Join. */
  function Join(ss: seq<string>, sep: string): string
    decreases |ss|
  {
    if |ss| == 0 then []
    else if |ss| == 1 then ss[0]
    else ss[0] + sep + Join(ss[1..], sep)
  }

  /** strings.Split with a non-empty separator: the pieces between
      non-overlapping occurrences of sep, found left to right. */
  function Split(s: string, sep: string): (r: seq<string>)
    requires sep != []
    ensures |r| >= 1 && Join(r, sep) == s
    decreases |s|
  {
    var m := Index(s, sep);
    if m == -1 then [s]
    else
      var tail := Split(s[m + |sep|..], sep);
      var r := [s[..m]] + tail;
      assert r[0] == s[..m] && r[1..] == tail;
      assert Join(r, sep) == s[..m] + sep + Join(tail, sep);
      assert s == s[..m] + sep + s[m + |sep|..];
      r
  }

  /** No piece of a split contains the separator. */
  lemma {:induction false} SplitPiecesFree(s: string, sep: string)
    requires sep != []
    ensures forall j :: 0 <= j < |Split(s, sep)| ==> Index(Split(s, sep)[j], sep) == -1
    decreases |s|
  {
    var m := Index(s, sep);
    if m != -1 {
      var head := s[..m];
      forall i | 0 <= i && i + |sep| <= |head| ensures !OccursAt(head, sep, i) {
        OccursInPrefix(head, s[m..], sep, i);
        assert head + s[m..] == s;
      }
      SplitPiecesFree(s[m + |sep|..], sep);
      var r := Split(s, sep);
      assert r == [head] + Split(s[m + |sep|..], sep);
      forall j | 1 <= j < |r| ensures Index(r[j], sep) == -1 {
        assert r[j] == Split(s[m + |sep|..], sep)[j - 1];
      }
    }
  }


  /** The text p is followed by sep and sep does not occur any earlier: the
      condition under which splitting p + sep + rest cuts exactly after p. */
  predicate Delimits(p: string, sep: string) {
    Index(p + sep, sep) == |p|
  }

  /** Splitting undoes joining when every piece but the last is delimited
      by the separator and the last does not contain it. */
  lemma {:induction false} SplitJoin(ps: seq<string>, sep: string)
    requires sep != [] && |ps| >= 1
    requires forall j :: 0 <= j < |ps| - 1 ==> Delimits(ps[j], sep)
    requires Index(ps[|ps| - 1], sep) == -1
    ensures Split(Join(ps, sep), sep) == ps
    decreases |ps|
  {
    if |ps| > 1 {
      var p := ps[0];
      var rest := Join(ps[1..], sep);
      var s := p + sep + rest;
      assert Join(ps, sep) == s;
      assert Delimits(p, sep);
      forall i | 0 <= i < |p| ensures !OccursAt(s, sep, i) {
        OccursInPrefix(p + sep, rest, sep, i);
      }
      OccursInPrefix(p + sep, rest, sep, |p|);
      IndexIs(s, sep, |p|);
      assert s[|p| + |sep|..] == rest;
      SplitJoin(ps[1..], sep);
    }
  }

  /** For a one-character separator, being delimited is simply not
      containing the separator. */
  lemma {:induction false} DelimitsChar(p: string, c: char)
    requires c !in p
    ensures Delimits(p, [c])
  {
    var s := p + [c];
    forall i | 0 <= i < |p| ensures !OccursAt(s, [c], i) {
      assert s[i] == p[i];
      assert s[i..i + 1] == [p[i]];
    }
    assert s[|p|..|p| + 1] == [c];
    IndexIs(s, [c], |p|);
  }

  lemma {:induction false} NoCharNoIndex(p: string, c: char)
    requires c !in p
    ensures Index(p, [c]) == -1
  {
    forall i | 0 <= i < |p| ensures !OccursAt(p, [c], i) {
      assert p[i..i + 1] == [p[i]];
    }
  }

  /** Splitting at a one-character separator cuts at its first occurrence. */
  lemma SplitCharCons(a: string, c: char, b: string)
    requires c !in a
    ensures Split(a + [c] + b, [c]) == [a] + Split(b, [c])
  {
    var s := a + [c] + b;
    forall i | 0 <= i < |a| ensures !OccursAt(s, [c], i) {
      assert s[i..i + 1] == [a[i]];
    }
    assert s[|a|..|a| + 1] == [c];
    IndexIs(s, [c], |a|);
    assert s[..|a|] == a;
    assert s[|a| + 1..] == b;
  }

  /** Splitting a string at a one-character separator and joining the
      pieces back gives the original string; every piece is free of c. */
  lemma {:induction false} SplitCharPieces(s: string, c: char)
    ensures forall j :: 0 <= j < |Split(s, [c])| ==> c !in Split(s, [c])[j]
  {
    var r := Split(s, [c]);
    SplitPiecesFree(s, [c]);
    forall j, k | 0 <= j < |r| && 0 <= k < |r[j]| ensures r[j][k] != c {
      assert !OccursAt(r[j], [c], k);
      assert r[j][k..k + 1] == [r[j][k]];
    }
  }

  // ---------------------------------------------------------------------
  // Case mapping (strings.ToLower on ASCII)

  function LowerChar(c: char): char {
    if 'A' <= c <= 'Z' then (c as int + 32) as char else c
  }

  function ToLower(s: string): string {
    seq(|s|, i requires 0 <= i < |s| => LowerChar(s[i]))
  }

  // ---------------------------------------------------------------------
  // Integers (strconv.Atoi and the decimal form fmt's %d writes)

  /** Go's int is 64 bits wide on the platforms the server targets. */
  const MinInt: int := -0x8000_0000_0000_0000
  const MaxInt: int := 0x7FFF_FFFF_FFFF_FFFF

  function DigitValue(c: char): nat
    requires IsDigit(c)
  {
    c as int - '0' as int
  }

  /** The value of a string of decimal digits, most significant first. */
  function DecimalValue(s: string): nat
    requires AllDigits(s)
    decreases |s|
  {
    if s == [] then 0 else DecimalValue(s[..|s| - 1]) * 10 + DigitValue(s[|s| - 1])
  }

  /** strconv.Atoi: an optional sign followed by at least one decimal digit,
      with a value that fits in 64 bits; anything else is an error. */
  function Atoi(s: string): (r: Option<int>)
    ensures r.Some? ==> MinInt <= r.value <= MaxInt
  {
    if s == [] then None
    else
      var signed := s[0] == '+' || s[0] == '-';
      var digits := if signed then s[1..] else s;
      if digits == [] || !AllDigits(digits) then None
      else
        var v: int := if s[0] == '-' then -(DecimalValue(digits) as int) else DecimalValue(digits);
        if MinInt <= v <= MaxInt then Some(v) else None
  }

  /** The decimal digits of n, without leading zeros. */
  function NatToString(n: nat): (s: string)
    ensures s != [] && AllDigits(s) && DecimalValue(s) == n
    ensures s[0] == '0' ==> n == 0
    decreases n
  {
    var d := ('0' as int + n % 10) as char;
    if n < 10 then [d]
    else
      var front := NatToString(n / 10);
      var s := front + [d];
      assert s[..|s| - 1] == front;
      s
  }

  /** fmt's %d of an int: a minus sign for negative values, then digits. */
  function Itoa(n: int): string {
    if n < 0 then "-" + NatToString(-n) else NatToString(n)
  }

  /** Atoi reads back exactly what %d writes, for every 64-bit value. */
  lemma {:induction false} AtoiItoa(n: int)
    requires MinInt <= n <= MaxInt
    ensures Atoi(Itoa(n)) == Some(n)
  {
    if n < 0 {
      var s := Itoa(n);
      assert s[1..] == NatToString(-n);
    }
  }

  /** The digits %d writes contain no white space, no sign and no colon. */
  lemma {:induction false} NatToStringPlain(n: nat)
    ensures NoSpace(NatToString(n)) && ':' !in NatToString(n) && '\n' !in NatToString(n)
  {
    var s := NatToString(n);
    forall i | 0 <= i < |s| ensures !IsSpace(s[i]) && s[i] != ':' && s[i] != '\n' {
      assert IsDigit(s[i]);
    }
  }

  // ---------------------------------------------------------------------
  // Fields (strings.Fields)

  /** Length of the longest prefix of s free of white space. */
  function SpanNonSpace(s: string): (k: nat)
    ensures k <= |s| && NoSpace(s[..k]) && (k == |s| || IsSpace(s[k]))
    ensures s != [] && !IsSpace(s[0]) ==> k >= 1
    decreases |s|
  {
    if s == [] || IsSpace(s[0]) then 0
    else
      var k := SpanNonSpace(s[1..]);
      assert s[..k + 1] == [s[0]] + s[1..][..k];
      k + 1
  }

  /** strings.Fields: the maximal runs of non-space characters, in order. */
  function Fields(s: string): seq<string>
    decreases |s|
  {
    var t := TrimLeftFunc(s, IsSpace);
    if t == [] then []
    else
      var k := SpanNonSpace(t);
      [t[..k]] + Fields(t[k..])
  }

  lemma {:induction false} SpanIs(s: string, k: nat)
    requires k <= |s| && NoSpace(s[..k]) && (k == |s| || IsSpace(s[k]))
    ensures SpanNonSpace(s) == k
  {
    var k' := SpanNonSpace(s);
    forall i | 0 <= i < k ensures !IsSpace(s[i]) {
      assert s[..k][i] == s[i];
    }
    forall i | 0 <= i < k' ensures !IsSpace(s[i]) {
      assert s[..k'][i] == s[i];
    }
  }

  lemma TrimLeftAppend(x: string, y: string, p: char -> bool)
    requires TrimLeftFunc(x, p) != []
    ensures TrimLeftFunc(x + y, p) == TrimLeftFunc(x, p) + y
  {
    var a := SkipLeft(x, p, 0);
    SkipLeftDropped(x, p, 0);
    forall j | 0 <= j < a ensures p((x + y)[j]) {
      assert (x + y)[j] == x[j];
    }
    assert (x + y)[a] == x[a];
    SkipLeftIs(x + y, p, 0, a);
    assert (x + y)[a..] == x[a..] + y;
  }

  lemma TrimLeftPrepend(pre: string, x: string, p: char -> bool)
    requires forall i :: 0 <= i < |pre| ==> p(pre[i])
    ensures TrimLeftFunc(pre + x, p) == TrimLeftFunc(x, p)
  {
    var s := pre + x;
    var a := SkipLeft(x, p, 0);
    SkipLeftDropped(x, p, 0);
    forall j | 0 <= j < |pre| + a ensures p(s[j]) {
      if j < |pre| {
        assert s[j] == pre[j];
      } else {
        assert s[j] == x[j - |pre|];
      }
    }
    assert |pre| + a < |s| ==> s[|pre| + a] == x[a];
    SkipLeftIs(s, p, 0, |pre| + a);
    assert s[|pre| + a..] == x[a..];
  }

  lemma ConsTail<T>(xs: seq<T>)
    requires xs != []
    ensures xs == [xs[0]] + xs[1..]
  {
  }

  lemma SplitAt(s: string, k: nat)
    requires k <= |s|
    ensures s == s[..k] + s[k..]
  {
  }

  /** A string that trims to nothing, followed by white space, is white
      space throughout and has no fields. */
  lemma SpaceThenSpace(x: string, post: string)
    requires TrimLeftFunc(x, IsSpace) == []
    requires AllSpace(post)
    ensures Fields(x + post) == []
  {
    TrimLeftDropped(x, IsSpace);
    var s := x + post;
    forall i | 0 <= i < |s| ensures IsSpace(s[i]) {
      if i < |x| {
        assert s[i] == x[i];
      } else {
        assert s[i] == post[i - |x|];
      }
    }
    TrimLeftAll(s, IsSpace);
  }

  lemma FieldsAppendStep(x: string, post: string)
    requires TrimLeftFunc(x, IsSpace) != []
    requires AllSpace(post)
    ensures var t := TrimLeftFunc(x, IsSpace); var k := SpanNonSpace(t);
      && Fields(x) == [t[..k]] + Fields(t[k..])
      && Fields(x + post) == [t[..k]] + Fields(t[k..] + post)
  {
    var t := TrimLeftFunc(x, IsSpace);
    TrimLeftAppend(x, post, IsSpace);
    var k := SpanNonSpace(t);
    assert (t + post)[..k] == t[..k];
    assert k == |t| && post != [] ==> (t + post)[k] == post[0];
    SpanIs(t + post, k);
    assert (t + post)[k..] == t[k..] + post;
  }

  /** Trailing white space never produces or changes a field. */
  lemma {:induction false} FieldsAppendSpace(x: string, post: string)
    requires AllSpace(post)
    ensures Fields(x + post) == Fields(x)
    decreases |x|
  {
    var t := TrimLeftFunc(x, IsSpace);
    if t == [] {
      SpaceThenSpace(x, post);
    } else {
      var k := SpanNonSpace(t);
      FieldsAppendStep(x, post);
      FieldsAppendSpace(t[k..], post);
    }
  }

  /** Leading white space never produces or changes a field. */
  lemma {:induction false} FieldsPrependSpace(pre: string, x: string)
    requires AllSpace(pre)
    ensures Fields(pre + x) == Fields(x)
  {
    TrimLeftPrepend(pre, x, IsSpace);
  }

  /** The TrimSpace that precedes Fields on the request line changes
      nothing: Fields already ignores surrounding white space. */
  lemma FieldsOfTrimSpace(s: string)
    ensures Fields(TrimSpace(s)) == Fields(s)
  {
    var t := TrimSpace(s);
    TrimFuncDropped(s, IsSpace);
    var a := SkipLeft(s, IsSpace, 0);
    var pre, post := s[..a], s[a + |t|..];
    assert AllSpace(pre) by {
      forall j | 0 <= j < |pre| ensures IsSpace(pre[j]) {
        assert pre[j] == s[j];
      }
    }
    assert AllSpace(post) by {
      forall j | 0 <= j < |post| ensures IsSpace(post[j]) {
        assert post[j] == s[a + |t| + j];
      }
    }
    assert s == pre + (t + post);
    FieldsPrependSpace(pre, t + post);
    FieldsAppendSpace(t, post);
  }

  predicate FieldLike(w: string) {
    w != [] && NoSpace(w)
  }

  /** Every element is a candidate field: non-empty and free of white space. */
  predicate Words(ws: seq<string>)
    decreases |ws|
  {
    ws == [] || (FieldLike(ws[0]) && Words(ws[1..]))
  }

  /** A word followed by white space (or by nothing) is the first field. */
  lemma {:induction false} FieldsOfWord(w: string, rest: string)
    requires FieldLike(w)
    requires rest == [] || IsSpace(rest[0])
    ensures Fields(w + rest) == [w] + Fields(rest)
  {
    var s := w + rest;
    assert s[0] == w[0];
    assert TrimLeftFunc(s, IsSpace) == s;
    assert s[..|w|] == w;
    SpanIs(s, |w|);
    assert s[|w|..] == rest;
  }

  lemma {:induction false} FieldsOfJoinStep(ws: seq<string>, post: string)
    requires |ws| >= 2 && FieldLike(ws[0])
    ensures Fields(Join(ws, " ") + post) == [ws[0]] + Fields(Join(ws[1..], " ") + post)
  {
    var inner := Join(ws[1..], " ") + post;
    assert Join(ws, " ") + post == ws[0] + (" " + inner);
    FieldsOfWord(ws[0], " " + inner);
    FieldsPrependSpace(" ", inner);
  }

  lemma {:induction false} FieldsOfShortJoin(ws: seq<string>, post: string)
    requires |ws| <= 1 && Words(ws)
    requires AllSpace(post)
    ensures Fields(Join(ws, " ") + post) == ws
  {
    if |ws| == 0 {
      FieldsOfAllSpace(post);
      assert Join(ws, " ") + post == post;
    } else {
      assert Join(ws, " ") == ws[0];
      FieldsOfOneWord(ws[0], post);
      assert ws == [ws[0]];
    }
  }

  lemma FieldsOfOneWord(w: string, post: string)
    requires FieldLike(w) && AllSpace(post)
    ensures Fields(w + post) == [w]
  {
    FieldsOfAllSpace(post);
    assert post == [] || IsSpace(post[0]);
    FieldsOfWord(w, post);
  }

  /** White space alone has no fields. */
  lemma FieldsOfAllSpace(post: string)
    requires AllSpace(post)
    ensures Fields(post) == []
  {
    TrimLeftAll(post, IsSpace);
  }

  /** Joining space-free words with single spaces and appending trailing
      white space, then taking Fields, gives back the words. */
  lemma {:induction false} FieldsOfJoin(ws: seq<string>, post: string)
    requires Words(ws)
    requires AllSpace(post)
    ensures Fields(Join(ws, " ") + post) == ws
    decreases |ws|
  {
    if |ws| <= 1 {
      FieldsOfShortJoin(ws, post);
    } else {
      FieldsOfJoinStep(ws, post);
      FieldsOfJoin(ws[1..], post);
      ConsTail(ws);
    }
  }

  /** Words without white space, joined by spaces, contain no line feed. */
  lemma {:induction false} JoinWordsNoNewline(ws: seq<string>)
    requires forall j :: 0 <= j < |ws| ==> NoSpace(ws[j])
    ensures '\n' !in Join(ws, " ")
    decreases |ws|
  {
    if |ws| > 1 {
      JoinWordsNoNewline(ws[1..]);
      assert '\n' !in ws[0];
    } else if |ws| == 1 {
      assert '\n' !in ws[0];
    }
  }
}
