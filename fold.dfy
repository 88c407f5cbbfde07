/** The line-folding transform that dist/esm/IPC.js applies to the whole
    file: newlines are first replaced by a marker, the result is UTF-8 and
    base64 encoded, and the base64 text is cut into lines of at most
    `maxLineLength` characters (`breakLimitString`); reading undoes each step
    (`inverseBreakLimitString`). */
module Fold {
  import opened Text
  import Utf8
  import Base64

  const Marker: string := "<<break-limit-string>>"

  /** The default `maxLineLength`. */
  const MaxLineLength: nat := 120

  /** Two occurrences of the marker can never overlap. */
  lemma MarkerBorderless()
    ensures Borderless(Marker)
  {
    forall k | 0 < k < |Marker| ensures Marker[k..] != Marker[..|Marker| - k] {
      MarkerShift(k);
    }
  }

  /** The marker shifted by `k` characters does not match itself: for
      `k > 1` a proper prefix ends in a character other than `>`. */
  lemma MarkerShift(k: nat)
    requires 0 < k < |Marker|
    ensures Marker[k..] != Marker[..|Marker| - k]
  {
    var a, b := Marker[k..], Marker[..|Marker| - k];
    if k == 1 {
      assert a[1] == 'b' && b[1] == '<';
    } else {
      var head := "<<break-limit-string";
      assert Marker == head + ">>";
      assert '>' !in head;
      assert b[|b| - 1] == head[21 - k];
      assert a[|a| - 1] == '>';
    }
  }

  /** The text `breakLimitString` cuts into lines. */
  function Encoded(input: string): (t: string)
    ensures forall i :: 0 <= i < |t| ==> Base64.IsAlphabetChar(t[i]) || t[i] == '='
  {
    Base64.Encode(Utf8.Encode(ReplaceAll(input, "\n", Marker)))
  }

  /** The slices `t.slice(i, i + n)` for `i = 0, n, 2n, ...` while `i < |t|`. */
  function Chunks(t: string, n: nat): (r: seq<string>)
    requires n > 0
    ensures forall i :: 0 <= i < |r| ==> 0 < |r[i]| <= n
    ensures forall i :: 0 <= i < |r| - 1 ==> |r[i]| == n
    ensures forall i, c :: 0 <= i < |r| && c in r[i] ==> c in t
    ensures Join(r, "") == t
    decreases |t|
  {
    if t == "" then []
    else if |t| <= n then [t]
    else
      var rest := Chunks(t[n..], n);
      assert Join([t[..n]] + rest, "") == t[..n] + Join(rest, "");
      assert forall c :: c in t[..n] || c in t[n..] ==> c in t by {
        assert t == t[..n] + t[n..];
      }
      [t[..n]] + rest
  }

  /** What `breakLimitString(input, n)` returns. */
  function Folded(input: string, n: nat): string
    requires n > 0
  {
    Join(Chunks(Encoded(input), n), "\n")
  }

  /** The slices still to be taken once the loop index has reached `i`. */
  function ChunksFrom(t: string, i: nat, n: nat): seq<string>
    requires n > 0
  {
    if i < |t| then Chunks(t[i..], n) else []
  }

  /** One turn of the loop takes the next slice. */
  lemma ChunksFromStep(t: string, i: nat, n: nat)
    requires n > 0 && i < |t|
    ensures ChunksFrom(t, i, n) == [t[i..if i + n <= |t| then i + n else |t|]] + ChunksFrom(t, i + n, n)
  {
    var u := t[i..];
    if |u| > n {
      assert Chunks(u, n) == [u[..n]] + Chunks(u[n..], n);
      assert u[..n] == t[i..i + n];
      assert u[n..] == t[i + n..];
    } else {
      assert Chunks(u, n) == [u];
      assert u == t[i..|t|];
    }
  }

  /** `breakLimitString`: a counted loop collects the slices. */
  method BreakLimitString(input: string, maxLineLength: nat := MaxLineLength) returns (r: string)
    requires maxLineLength > 0
    ensures r == Folded(input, maxLineLength)
  {
    var t := Encoded(input);
    var n := maxLineLength;
    var lines: seq<string> := [];
    var i: nat := 0;
    while i < |t|
      invariant lines + ChunksFrom(t, i, n) == Chunks(t, n)
      decreases |t| - i
    {
      var end := if i + n <= |t| then i + n else |t|;
      ChunksFromStep(t, i, n);
      var rest := ChunksFrom(t, i + n, n);
      assert ChunksFrom(t, i, n) == [t[i..end]] + rest;
      assert lines + [t[i..end]] + rest == lines + ([t[i..end]] + rest);
      lines := lines + [t[i..end]];
      i := i + n;
    }
    assert lines + [] == lines;
    r := Join(lines, "\n");
  }

  /** `inverseBreakLimitString`: lines are concatenated, decoded, and the
      marker is turned back into newlines. */
  function InverseBreakLimitString(input: string): string {
    ReplaceAll(Utf8.Decode(Base64.Decode(Join(Split(input, "\n"), ""))), Marker, "\n")
  }

  /** Unfolding restores every text that does not itself contain the marker. */
  lemma FoldRoundTrip(s: string, n: nat)
    requires n > 0 && !Contains(s, Marker)
    ensures InverseBreakLimitString(Folded(s, n)) == s
  {
    var e := Encoded(s);
    var c := Chunks(e, n);
    if c == [] {
      assert Split("", "\n") == [""];
    } else {
      assert '\n' !in e by {
        assert forall k :: 0 <= k < |e| ==> e[k] != '\n';
      }
      assert forall i :: 0 <= i < |c| ==> "\n"[0] !in c[i];
      SplitJoin(c, "\n");
    }
    assert Join(Split(Folded(s, n), "\n"), "") == e;
    Base64.DecodeEncode(Utf8.Encode(ReplaceAll(s, "\n", Marker)));
    Utf8.DecodeEncode(ReplaceAll(s, "\n", Marker));
    MarkerBorderless();
    ReplaceAllInverse(s, "\n", Marker);
  }
}
