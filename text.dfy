/** The string and array primitives of JavaScript that the bus relies on:
    `split`/`join` with a string separator, `replaceAll`, `filter`, the
    first-occurrence de-duplication idiom `filter((v, i, l) => l.indexOf(v) === i)`,
    `trim() !== ""`, `parseInt` and `Number.prototype.toString`. */
module Text {
  import opened Wrappers

  // ---------------------------------------------------------------------------
  // Searching

  /** `pat` occurs in `s` at index `i`. */
  predicate MatchAt(s: string, pat: string, i: nat) {
    i + |pat| <= |s| && s[i..i + |pat|] == pat
  }

  /** `s.indexOf(pat, from)`, with `None` for -1. */
  function IndexOf(s: string, pat: string, from: nat): (r: Option<nat>)
    ensures r.Some? ==> from <= r.value && MatchAt(s, pat, r.value)
    ensures forall j: nat :: from <= j && (r.None? || j < r.value) ==> !MatchAt(s, pat, j)
    decreases |s| - from
  {
    if from + |pat| > |s| then None
    else if MatchAt(s, pat, from) then Some(from)
    else IndexOf(s, pat, from + 1)
  }

  /** `s.includes(pat)`. */
  predicate Contains(s: string, pat: string) {
    IndexOf(s, pat, 0).Some?
  }

  lemma NoMatchWithoutFirstChar(p: string, sep: string)
    requires sep != "" && sep[0] !in p
    ensures IndexOf(p, sep, 0) == None
  {
    forall j: nat | true ensures !MatchAt(p, sep, j) {
      if j + |sep| <= |p| {
        assert p[j..j + |sep|][0] == p[j] != sep[0];
      }
    }
  }

  /** The first match at or after 0 is at `k`. */
  lemma IndexOfIs(s: string, pat: string, k: nat)
    requires MatchAt(s, pat, k)
    requires forall j: nat :: j < k ==> !MatchAt(s, pat, j)
    ensures IndexOf(s, pat, 0) == Some(k)
  {
  }

  // ---------------------------------------------------------------------------
  // split / join

  /** `s.split(sep)` for a non-empty string separator: the pieces between the
      leftmost non-overlapping occurrences of `sep`; there is always one piece
      more than there are occurrences. */
  function Split(s: string, sep: string): (parts: seq<string>)
    requires sep != ""
    ensures |parts| >= 1
    decreases |s|
  {
    match IndexOf(s, sep, 0)
    case None => [s]
    case Some(k) => [s[..k]] + Split(s[k + |sep|..], sep)
  }

  /** `parts.join(sep)`. */
  function Join(parts: seq<string>, sep: string): string {
    if |parts| == 0 then ""
    else if |parts| == 1 then parts[0]
    else parts[0] + sep + Join(parts[1..], sep)
  }

  /** Splitting a joined sequence gives the pieces back when no piece contains
      the separator's first character. */
  lemma {:induction false} SplitJoin(parts: seq<string>, sep: string)
    requires sep != "" && |parts| >= 1
    requires forall i :: 0 <= i < |parts| ==> sep[0] !in parts[i]
    ensures Split(Join(parts, sep), sep) == parts
  {
    var p := parts[0];
    if |parts| == 1 {
      NoMatchWithoutFirstChar(p, sep);
    } else {
      var rest := Join(parts[1..], sep);
      var s := p + sep + rest;
      assert Join(parts, sep) == s;
      forall j: nat | j < |p| ensures !MatchAt(s, sep, j) {
        assert s[j..j + |sep|][0] == s[j] == p[j] != sep[0];
      }
      assert s[|p|..|p| + |sep|] == sep;
      IndexOfIs(s, sep, |p|);
      assert s[..|p|] == p;
      assert s[|p| + |sep|..] == rest;
      SplitJoin(parts[1..], sep);
    }
  }

  /** A character that occurs in no piece nor in the separator does not occur
      in the joined string. */
  lemma {:induction false} NotInJoin(parts: seq<string>, sep: string, c: char)
    requires c !in sep
    requires forall i :: 0 <= i < |parts| ==> c !in parts[i]
    ensures c !in Join(parts, sep)
  {
    if |parts| > 1 {
      NotInJoin(parts[1..], sep, c);
    }
  }

  /** Splitting and re-joining with the same separator is the identity. */
  lemma {:induction false} JoinSplit(s: string, sep: string)
    requires sep != ""
    ensures Join(Split(s, sep), sep) == s
    decreases |s|
  {
    match IndexOf(s, sep, 0)
    case None =>
      assert Split(s, sep) == [s];
    case Some(k) =>
      var head, rest := s[..k], s[k + |sep|..];
      var tail := Split(rest, sep);
      var parts := [head] + tail;
      assert Split(s, sep) == parts;
      JoinSplit(rest, sep);
      assert |tail| >= 1;
      assert parts[0] == head && parts[1..] == tail;
      assert Join(parts, sep) == head + sep + rest;
      assert s == head + sep + rest by {
        assert s[k..k + |sep|] == sep;
        assert s == s[..k] + s[k..k + |sep|] + s[k + |sep|..];
      }
  }

  /** A slice of a string free of `pat` is free of `pat`. */
  lemma NotContainsSlice(s: string, pat: string, a: nat, b: nat)
    requires a <= b <= |s| && !Contains(s, pat)
    ensures !Contains(s[a..b], pat)
  {
    forall j: nat ensures !MatchAt(s[a..b], pat, j) {
      if j + |pat| <= b - a {
        var t := s[a..b];
        var u, v := t[j..j + |pat|], s[a + j..a + j + |pat|];
        forall i | 0 <= i < |pat| ensures u[i] == v[i] {
          assert t[j + i] == s[a + j + i];
        }
        assert u == v;
        assert !MatchAt(s, pat, a + j);
      }
    }
  }

  /** Every piece of a string free of `pat` is free of `pat`. */
  lemma {:induction false} SplitPartsAvoid(s: string, sep: string, pat: string)
    requires sep != "" && !Contains(s, pat)
    ensures forall i :: 0 <= i < |Split(s, sep)| ==> !Contains(Split(s, sep)[i], pat)
    decreases |s|
  {
    match IndexOf(s, sep, 0)
    case None =>
    case Some(k) =>
      var rest := s[k + |sep|..];
      NotContainsSlice(s, pat, 0, k);
      NotContainsSlice(s, pat, k + |sep|, |s|);
      assert s[0..k] == s[..k];
      assert s[k + |sep|..|s|] == rest;
      SplitPartsAvoid(rest, sep, pat);
      assert Split(s, sep) == [s[..k]] + Split(rest, sep);
  }

  /** No proper prefix of `sep` is also a suffix of it, so two occurrences
      of `sep` can never overlap. */
  predicate Borderless(sep: string) {
    forall k :: 0 < k < |sep| ==> sep[k..] != sep[..|sep| - k]
  }

  /** Splitting a joined sequence gives the pieces back when the separator
      cannot overlap itself and no piece contains it. */
  lemma {:induction false} SplitJoinBorderless(parts: seq<string>, sep: string)
    requires sep != "" && Borderless(sep) && |parts| >= 1
    requires forall i :: 0 <= i < |parts| ==> !Contains(parts[i], sep)
    ensures Split(Join(parts, sep), sep) == parts
  {
    var p := parts[0];
    if |parts| > 1 {
      var rest := Join(parts[1..], sep);
      var s := p + sep + rest;
      assert Join(parts, sep) == s;
      assert s[|p|..|p| + |sep|] == sep;
      forall j: nat | j < |p| ensures !MatchAt(s, sep, j) {
        if j + |sep| <= |p| {
          assert s[j..j + |sep|] == p[j..j + |sep|];
          assert !MatchAt(p, sep, j);
        } else {
          var k := |p| - j;
          assert s[j..j + |sep|][k..] == sep[..|sep| - k];
          assert sep[k..] != sep[..|sep| - k];
        }
      }
      IndexOfIs(s, sep, |p|);
      assert s[..|p|] == p;
      assert s[|p| + |sep|..] == rest;
      SplitJoinBorderless(parts[1..], sep);
    }
  }

  /** `s.replaceAll(pat, rep)` for a non-empty string pattern: every
      leftmost non-overlapping occurrence of `pat` is replaced by `rep`. */
  function ReplaceAll(s: string, pat: string, rep: string): string
    requires pat != ""
  {
    Join(Split(s, pat), rep)
  }

  /** Replacing `pat` by `rep` and then `rep` by `pat` restores the string,
      when `rep` cannot overlap itself and does not occur in it. */
  lemma ReplaceAllInverse(s: string, pat: string, rep: string)
    requires pat != "" && rep != "" && Borderless(rep) && !Contains(s, rep)
    ensures ReplaceAll(ReplaceAll(s, pat, rep), rep, pat) == s
  {
    SplitPartsAvoid(s, pat, rep);
    SplitJoinBorderless(Split(s, pat), rep);
    JoinSplit(s, pat);
  }

  // ---------------------------------------------------------------------------
  // filter and de-duplication

  /** `s.filter(f)`. */
  function Filter<T(!new)>(f: T -> bool, s: seq<T>): (r: seq<T>)
    ensures |r| <= |s|
    ensures forall x :: x in r <==> x in s && f(x)
  {
    if s == [] then [] else (if f(s[0]) then [s[0]] else []) + Filter(f, s[1..])
  }

  lemma AppendAssoc<T>(a: seq<T>, b: seq<T>, c: seq<T>)
    ensures (a + b) + c == a + (b + c)
  {
  }

  lemma FilterSingle<T(!new)>(f: T -> bool, x: T)
    ensures Filter(f, [x]) == if f(x) then [x] else []
  {
    assert [x][1..] == [];
  }

  /** Filtering distributes over concatenation, so it keeps the input order. */
  lemma {:induction false} FilterAppend<T(!new)>(f: T -> bool, a: seq<T>, b: seq<T>)
    ensures Filter(f, a + b) == Filter(f, a) + Filter(f, b)
  {
    if a != [] {
      assert (a + b)[0] == a[0];
      assert (a + b)[1..] == a[1..] + b;
      FilterAppend(f, a[1..], b);
    } else {
      assert a + b == b;
    }
  }

  lemma {:induction false} FilterAllKept<T(!new)>(f: T -> bool, s: seq<T>)
    requires forall i :: 0 <= i < |s| ==> f(s[i])
    ensures Filter(f, s) == s
  {
    if s != [] {
      FilterAllKept(f, s[1..]);
    }
  }

  /** Nothing passes a filter that no element meets. */
  lemma {:induction false} FilterNone<T(!new)>(f: T -> bool, s: seq<T>)
    requires forall i :: 0 <= i < |s| ==> !f(s[i])
    ensures Filter(f, s) == []
  {
    if s != [] {
      FilterNone(f, s[1..]);
      assert !f(s[0]);
    }
  }

  /** No element occurs twice. */
  predicate NoDup<T(==)>(s: seq<T>) {
    forall i, j :: 0 <= i < j < |s| ==> s[i] != s[j]
  }

  lemma NoDup3<T>(a: T, b: T, c: T)
    requires a != b && a != c && b != c
    ensures NoDup([a, b, c])
  {
  }

  lemma {:induction false} FilterNoDup<T(!new)>(f: T -> bool, s: seq<T>)
    requires NoDup(s)
    ensures NoDup(Filter(f, s))
  {
    if s != [] {
      FilterNoDup(f, s[1..]);
      var r := Filter(f, s[1..]);
      assert s[0] !in s[1..] by {
        forall k | 0 <= k < |s| - 1 ensures s[1..][k] != s[0] { assert s[k + 1] != s[0]; }
      }
      assert s[0] !in r;
    }
  }

  /** `s.filter((v, i, l) => l.indexOf(v) === i)`: keeps the first occurrence
      of every element, in order. */
  function Dedup<T(==,!new)>(s: seq<T>): (r: seq<T>)
    ensures NoDup(r)
    ensures forall x :: x in r <==> x in s
    ensures |r| <= |s|
    decreases |s|
  {
    if s == [] then []
    else
      var init := Dedup(s[..|s| - 1]);
      var x := s[|s| - 1];
      if x in s[..|s| - 1] then init else init + [x]
  }

  /** De-duplicating a sequence without repetitions changes nothing. */
  lemma {:induction false} DedupOfNoDup<T(!new)>(s: seq<T>)
    requires NoDup(s)
    ensures Dedup(s) == s
  {
    if s != [] {
      var init := s[..|s| - 1];
      assert NoDup(init);
      DedupOfNoDup(init);
      assert s[|s| - 1] !in init;
      assert init + [s[|s| - 1]] == s;
    }
  }

  /** The first occurrences among `a` stay first, in the same order, whatever
      follows them. */
  lemma {:induction false} DedupPrefix<T(!new)>(a: seq<T>, b: seq<T>)
    ensures Dedup(a) <= Dedup(a + b)
    decreases |b|
  {
    if b != [] {
      var ab := a + b;
      DedupPrefix(a, b[..|b| - 1]);
      assert ab[..|ab| - 1] == a + b[..|b| - 1];
    } else {
      assert a + b == a;
    }
  }

  /** `s` without the element `x` (what `Map.delete` does to the key order). */
  function Remove<T(==,!new)>(s: seq<T>, x: T): (r: seq<T>)
    ensures forall y :: y in r <==> y in s && y != x
  {
    Filter(y => y != x, s)
  }

  /** Removing from a sequence with one more element at its front. */
  lemma RemoveCons<T(!new)>(y: T, s: seq<T>, x: T)
    ensures Remove([y] + s, x) == (if y != x then [y] else []) + Remove(s, x)
  {
    assert ([y] + s)[0] == y && ([y] + s)[1..] == s;
  }

  /** Removing from a sequence with one more element at its end. */
  lemma {:induction false} RemoveSnoc<T(!new)>(s: seq<T>, x: T, y: T)
    ensures Remove(s + [y], x) == Remove(s, x) + (if y != x then [y] else [])
  {
    if s != [] {
      assert (s + [y])[0] == s[0];
      assert (s + [y])[1..] == s[1..] + [y];
      RemoveSnoc(s[1..], x, y);
    } else {
      assert s + [y] == [y];
    }
  }

  lemma {:induction false} RemoveLength<T(!new)>(s: seq<T>, x: T)
    requires NoDup(s)
    ensures NoDup(Remove(s, x))
    ensures |Remove(s, x)| == if x in s then |s| - 1 else |s|
  {
    FilterNoDup(y => y != x, s);
    if s != [] {
      assert NoDup(s[1..]);
      RemoveLength(s[1..], x);
      if s[0] == x {
        assert x !in s[1..] by {
          forall k | 0 <= k < |s| - 1 ensures s[1..][k] != x { assert s[k + 1] != s[0]; }
        }
      }
    }
  }

  /** Concatenation of a sequence of sequences (`Array.prototype.concat.apply([], ...)`). */
  function Concat<T>(ss: seq<seq<T>>): seq<T> {
    if ss == [] then [] else ss[0] + Concat(ss[1..])
  }

  lemma {:induction false} InConcat<T>(ss: seq<seq<T>>, x: T)
    ensures x in Concat(ss) <==> exists i :: 0 <= i < |ss| && x in ss[i]
  {
    if ss != [] {
      InConcat(ss[1..], x);
      if x in Concat(ss[1..]) {
        var i :| 0 <= i < |ss| - 1 && x in ss[1..][i];
        assert x in ss[i + 1];
      }
      if exists i :: 0 <= i < |ss| && x in ss[i] {
        var i :| 0 <= i < |ss| && x in ss[i];
        if i > 0 { assert x in ss[1..][i - 1]; }
      }
    }
  }

  // ---------------------------------------------------------------------------
  // trim

  /** The characters `String.prototype.trim` removes: WhiteSpace and
      LineTerminator of ECMAScript. */
  predicate IsJsWhitespace(c: char) {
    c == '\t' || c == '\n' || c == '\U{000B}' || c == '\U{000C}' || c == '\r' || c == ' '
    || c == '\U{00A0}' || c == '\U{1680}' || ('\U{2000}' <= c <= '\U{200A}')
    || c == '\U{2028}' || c == '\U{2029}' || c == '\U{202F}' || c == '\U{205F}'
    || c == '\U{3000}' || c == '\U{FEFF}'
  }

  /** `s.trim() === ""`. */
  predicate IsBlank(s: string) {
    forall i :: 0 <= i < |s| ==> IsJsWhitespace(s[i])
  }

  function TrimStart(s: string): (r: string)
    ensures |r| <= |s|
  {
    if s != "" && IsJsWhitespace(s[0]) then TrimStart(s[1..]) else s
  }

  // ---------------------------------------------------------------------------
  // Numbers

  /** The JavaScript numbers the bus handles: integers, or NaN. */
  datatype Num = Int(n: int) | NaN

  function Abs(x: int): nat { if x < 0 then -x else x }

  /** `a === b` on numbers: NaN equals nothing. */
  predicate SameNum(a: Num, b: Num) {
    a.Int? && b.Int? && a.n == b.n
  }

  /** `|a - b| < bound`; every comparison with NaN is false. */
  predicate DiffBelow(a: Num, b: Num, bound: int) {
    a.Int? && b.Int? && Abs(a.n - b.n) < bound
  }

  /** `|a - b| > bound`; every comparison with NaN is false. */
  predicate DiffAbove(a: Num, b: Num, bound: int) {
    a.Int? && b.Int? && Abs(a.n - b.n) > bound
  }

  /** The value of a digit character in radix 16 or less; 99 for any other character. */
  function DigitValue(c: char): (v: nat)
    ensures v < 16 || v == 99
  {
    if '0' <= c <= '9' then c as int - '0' as int
    else if 'a' <= c <= 'f' then c as int - 'a' as int + 10
    else if 'A' <= c <= 'F' then c as int - 'A' as int + 10
    else 99
  }

  /** The longest prefix of `s` made of radix-`radix` digits. */
  function DigitPrefix(s: string, radix: nat): (r: string)
    ensures r <= s
    ensures forall i :: 0 <= i < |r| ==> DigitValue(r[i]) < radix
    ensures |r| < |s| ==> DigitValue(s[|r|]) >= radix
  {
    if s != "" && DigitValue(s[0]) < radix then [s[0]] + DigitPrefix(s[1..], radix) else ""
  }

  /** The value of a digit string, most significant digit first. */
  function DigitsValue(ds: string, radix: nat): int {
    if ds == "" then 0
    else DigitsValue(ds[..|ds| - 1], radix) * radix + DigitValue(ds[|ds| - 1])
  }

  /** `parseInt` after the sign: a `0x`/`0X` prefix selects radix 16, then
      the longest digit prefix is read; NaN when that prefix is empty. */
  function ParseUnsigned(u: string): Num {
    var hex := |u| >= 2 && u[0] == '0' && (u[1] == 'x' || u[1] == 'X');
    var radix := if hex then 16 else 10;
    var ds := DigitPrefix(if hex then u[2..] else u, radix);
    if ds == "" then NaN else Int(DigitsValue(ds, radix))
  }

  function Negate(x: Num): Num {
    match x
    case NaN => NaN
    case Int(n) => Int(-n)
  }

  /** `parseInt(s)` with no radix argument: leading white space is skipped,
      then an optional sign, then `ParseUnsigned`. */
  function ParseInt(s: string): Num {
    var t := TrimStart(s);
    if t != "" && t[0] == '-' then Negate(ParseUnsigned(t[1..]))
    else if t != "" && t[0] == '+' then ParseUnsigned(t[1..])
    else ParseUnsigned(t)
  }

  /** A text that starts with a character that is neither white space, a
      sign nor a decimal digit does not read as a number. */
  lemma NotANumber(s: string)
    requires s != "" && !IsJsWhitespace(s[0]) && s[0] != '-' && s[0] != '+' && DigitValue(s[0]) >= 10
    ensures ParseInt(s) == NaN
  {
    assert TrimStart(s) == s;
    assert DigitPrefix(s, 10) == "";
  }

  function DigitChar(d: nat): (c: char)
    requires d < 10
    ensures DigitValue(c) == d
  {
    ('0' as int + d) as char
  }

  /** Decimal notation of a natural number, without leading zeros. */
  function NatToString(n: nat): (s: string)
    ensures s != ""
    ensures forall i :: 0 <= i < |s| ==> '0' <= s[i] <= '9'
  {
    if n < 10 then [DigitChar(n)] else NatToString(n / 10) + [DigitChar(n % 10)]
  }

  /** `n.toString()` for an integer `n`. */
  function IntToString(n: int): string {
    if n < 0 then "-" + NatToString(-n) else NatToString(n)
  }

  /** `x.toString()` for a number: "NaN" for NaN. */
  function NumToString(x: Num): string {
    match x
    case NaN => "NaN"
    case Int(n) => IntToString(n)
  }

  lemma {:induction false} NatToStringValue(n: nat)
    ensures DigitsValue(NatToString(n), 10) == n
  {
    var s := NatToString(n);
    if n >= 10 {
      NatToStringValue(n / 10);
      assert s[..|s| - 1] == NatToString(n / 10);
    }
  }

  lemma {:induction false} AllDigitsPrefix(s: string)
    requires forall i :: 0 <= i < |s| ==> '0' <= s[i] <= '9'
    ensures DigitPrefix(s, 10) == s
  {
    if s != "" {
      AllDigitsPrefix(s[1..]);
    }
  }

  lemma ParseUnsignedDigits(u: string)
    requires u != "" && forall i :: 0 <= i < |u| ==> '0' <= u[i] <= '9'
    ensures ParseUnsigned(u) == Int(DigitsValue(u, 10))
  {
    AllDigitsPrefix(u);
    assert !(|u| >= 2 && u[0] == '0' && (u[1] == 'x' || u[1] == 'X'));
  }

  lemma TrimStartDigits(s: string)
    requires s != "" && ('0' <= s[0] <= '9' || s[0] == '-')
    ensures TrimStart(s) == s
  {
  }

  /** `parseInt` reads back what `toString` writes, for every integer. */
  lemma ParseIntToString(n: int)
    ensures ParseInt(IntToString(n)) == Int(n)
  {
    var m: nat := if n < 0 then -n else n;
    var u := NatToString(m);
    NatToStringValue(m);
    ParseUnsignedDigits(u);
    if n < 0 {
      var s := "-" + u;
      assert IntToString(n) == s;
      TrimStartDigits(s);
      assert s[1..] == u;
      assert ParseInt(s) == Negate(ParseUnsigned(u));
    } else {
      assert IntToString(n) == u;
      TrimStartDigits(u);
      assert ParseInt(u) == ParseUnsigned(u) by {
        assert u[0] != '-' && u[0] != '+';
      }
    }
  }
}
