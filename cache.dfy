/** The replicated TTL cache of src/Cache.ts and dist/esm/Cache.js.

    The process holds one insertion-ordered map of entries. Changes to it are
    handed to the bus as `cache:update` and `cache:delete` events. A peer's
    whole map is merged in by a last-write-wins join on `added`. The esm build
    also bounds the map to `maxEntries` by evicting one entry when a new key
    arrives at capacity. Time is the integer millisecond `now` of each call. */
module TtlCache {
  import opened Wrappers
  import opened Text

  // ---------------------------------------------------------------------------
  // Expiry

  /** A moment in milliseconds, or `Infinity`. */
  datatype Expiry = At(ms: int) | Never

  /** `entry.expires <= now`: `Infinity` is never reached. */
  predicate Reached(x: Expiry, now: int) {
    x.At? && x.ms <= now
  }

  /** `calculateExpiryTime(expirySeconds)` evaluated at `now`. */
  function CalculateExpiryTime(now: int, expirySeconds: int): Expiry {
    if expirySeconds > 0 then At(now + expirySeconds * 1000) else Never
  }

  /** An expiry computed at `now` is reached at `t` exactly when the seconds
      were positive and `t` is that many seconds later or more. */
  lemma ExpiryReached(now: int, expirySeconds: int, t: int)
    ensures Reached(CalculateExpiryTime(now, expirySeconds), t) <==> expirySeconds > 0 && t >= now + 1000 * expirySeconds
  {
  }

  /** A cache entry: the stored JSON text and three timestamps. */
  datatype Entry = Entry(value: string, added: int, accessed: int, expires: Expiry)

  // ---------------------------------------------------------------------------
  // JSON text of values

  /** A value given to `set`: a string, or any other JSON value, given by the
      text `JSONStringify` writes for it. */
  datatype Value = Str(s: string) | Json(text: string)

  function HexDigit(d: nat): (c: char)
    requires d < 16
  {
    if d < 10 then ('0' as int + d) as char else ('a' as int + d - 10) as char
  }

  function HexValue(c: char): (r: Option<nat>)
    ensures r.Some? ==> r.value < 16
  {
    if '0' <= c <= '9' then Some(c as int - '0' as int)
    else if 'a' <= c <= 'f' then Some(c as int - 'a' as int + 10)
    else if 'A' <= c <= 'F' then Some(c as int - 'A' as int + 10)
    else None
  }

  /** The escape `JSON.stringify` writes for one character of a string. */
  function EscapeChar(c: char): (t: string)
    ensures |t| >= 1
  {
    if c == '"' then "\\\""
    else if c == '\\' then "\\\\"
    else if c as int == 8 then "\\b"
    else if c as int == 12 then "\\f"
    else if c == '\n' then "\\n"
    else if c == '\r' then "\\r"
    else if c == '\t' then "\\t"
    else if (c as int) < 0x20 then "\\u00" + [HexDigit(c as int / 16), HexDigit(c as int % 16)]
    else [c]
  }

  function Escape(s: string): (t: string)
    ensures |t| >= |s|
  {
    if s == "" then "" else EscapeChar(s[0]) + Escape(s[1..])
  }

  /** `JSON.stringify(s)` for a string `s`. */
  function JsonQuote(s: string): (t: string)
    ensures |t| >= |s| + 2
  {
    "\"" + Escape(s) + "\""
  }

  /** `JSONStringify(value)`. */
  function JsonStringify(v: Value): string {
    match v
    case Str(s) => JsonQuote(s)
    case Json(text) => text
  }

  function Prepend(c: char, r: Option<string>): Option<string> {
    match r
    case None => None
    case Some(s) => Some([c] + s)
  }

  /** The four hex digits of a `\u` escape, as a character; the surrogate
      halves, which only occur in pairs, are not read. */
  function UnicodeEscape(t: string): Option<char>
    requires |t| >= 4
  {
    var a, b, c, d := HexValue(t[0]), HexValue(t[1]), HexValue(t[2]), HexValue(t[3]);
    if a.None? || b.None? || c.None? || d.None? then None
    else
      var v := a.value * 4096 + b.value * 256 + c.value * 16 + d.value;
      if 0xD800 <= v < 0xE000 then None else Some(v as char)
  }

  /** The body of a JSON string literal after its opening quote: `None`
      unless the text ends at the closing quote and every escape is well
      formed. */
  function Unescape(t: string): Option<string>
    decreases |t|
  {
    if t == "" then None
    else if t[0] == '"' then (if |t| == 1 then Some("") else None)
    else if t[0] == '\\' then
      if |t| < 2 then None
      else if t[1] == '"' then Prepend('"', Unescape(t[2..]))
      else if t[1] == '\\' then Prepend('\\', Unescape(t[2..]))
      else if t[1] == '/' then Prepend('/', Unescape(t[2..]))
      else if t[1] == 'b' then Prepend(8 as char, Unescape(t[2..]))
      else if t[1] == 'f' then Prepend(12 as char, Unescape(t[2..]))
      else if t[1] == 'n' then Prepend('\n', Unescape(t[2..]))
      else if t[1] == 'r' then Prepend('\r', Unescape(t[2..]))
      else if t[1] == 't' then Prepend('\t', Unescape(t[2..]))
      else if t[1] == 'u' && |t| >= 6 then
        match UnicodeEscape(t[2..6])
        case None => None
        case Some(c) => Prepend(c, Unescape(t[6..]))
      else None
    else if (t[0] as int) < 0x20 then None
    else Prepend(t[0], Unescape(t[1..]))
  }

  /** `JSON.parse(t)` when `t` is a string literal with no surrounding
      whitespace; `None` for any other text. */
  function JsonUnquote(t: string): Option<string> {
    if t != "" && t[0] == '"' then Unescape(t[1..]) else None
  }

  lemma HexRoundTrip(d: nat)
    requires d < 16
    ensures HexValue(HexDigit(d)) == Some(d)
  {
  }

  /** A two-character escape reads back as its character. */
  lemma UnescapeShort(c: char, rest: string)
    requires c == '"' || c == '\\' || c as int == 8 || c as int == 12 || c == '\n' || c == '\r' || c == '\t'
    ensures Unescape(EscapeChar(c) + rest) == Prepend(c, Unescape(rest))
  {
    var t := EscapeChar(c) + rest;
    assert |EscapeChar(c)| == 2;
    assert t[2..] == rest;
  }

  /** A `\u00XX` escape of a control character reads back as it. */
  lemma UnescapeControl(c: char, rest: string)
    requires (c as int) < 0x20 && !(c as int == 8 || c as int == 12 || c == '\n' || c == '\r' || c == '\t')
    ensures Unescape(EscapeChar(c) + rest) == Prepend(c, Unescape(rest))
  {
    var t := EscapeChar(c) + rest;
    var v := c as int;
    HexRoundTrip(v / 16);
    HexRoundTrip(v % 16);
    assert t[0] == '\\' && t[1] == 'u';
    assert t[2..6] == ['0', '0', HexDigit(v / 16), HexDigit(v % 16)];
    assert UnicodeEscape(t[2..6]) == Some(c) by {
      assert (v / 16) * 16 + v % 16 == v;
    }
    assert t[6..] == rest;
  }

  /** Unescaping reads one escape back as its character. */
  lemma UnescapeChar(c: char, rest: string)
    ensures Unescape(EscapeChar(c) + rest) == Prepend(c, Unescape(rest))
  {
    if c == '"' || c == '\\' || c as int == 8 || c as int == 12 || c == '\n' || c == '\r' || c == '\t' {
      UnescapeShort(c, rest);
    } else if (c as int) < 0x20 {
      UnescapeControl(c, rest);
    } else {
      var t := EscapeChar(c) + rest;
      assert t[0] == c && t[1..] == rest;
    }
  }

  lemma {:induction false} UnescapeEscape(s: string)
    ensures Unescape(Escape(s) + "\"") == Some(s)
  {
    if s == "" {
      assert Escape(s) + "\"" == "\"";
    } else {
      var rest := Escape(s[1..]) + "\"";
      assert Escape(s) + "\"" == EscapeChar(s[0]) + rest;
      UnescapeChar(s[0], rest);
      UnescapeEscape(s[1..]);
      assert [s[0]] + s[1..] == s;
    }
  }

  /** `JSON.parse(JSON.stringify(s)) === s` for every string. */
  lemma JsonUnquoteQuote(s: string)
    ensures JsonUnquote(JsonQuote(s)) == Some(s)
  {
    assert JsonQuote(s)[1..] == Escape(s) + "\"";
    UnescapeEscape(s);
  }

  /** The `cache:update` handler hands the already stringified text to
      `set`, which stringifies it again: the peer stores a different text,
      and its `get` parses that back to the sender's JSON text rather than to
      the value. */
  lemma UpdateStoresQuotedText(json: string)
    ensures JsonStringify(Str(json)) != json
    ensures JsonUnquote(JsonStringify(Str(json))) == Some(json)
  {
    JsonUnquoteQuote(json);
  }

  /** `JSON.parse` gives `null` for this text: `memoize` takes it for a miss. */
  const NullText: string := "null"

  // ---------------------------------------------------------------------------
  // The map

  /** The contents of the `Map`: its keys in insertion order and its entries. */
  datatype Store = Store(order: seq<string>, entries: map<string, Entry>)

  /** The key order lists each key of the map once. */
  ghost predicate WellFormed(s: Store) {
    NoDup(s.order) && forall k :: k in s.entries <==> k in s.order
  }

  const Empty: Store := Store([], map[])

  /** `Map.set(k, e)`: a new key goes last, an existing one keeps its place. */
  function Put(s: Store, k: string, e: Entry): Store {
    Store(if k in s.entries then s.order else s.order + [k], s.entries[k := e])
  }

  /** `Map.delete(k)`. */
  function Del(s: Store, k: string): Store {
    Store(Remove(s.order, k), s.entries - {k})
  }

  lemma AppendNoDup(s: seq<string>, k: string)
    requires NoDup(s) && k !in s
    ensures NoDup(s + [k])
  {
    var t := s + [k];
    forall i, j | 0 <= i < j < |t| ensures t[i] != t[j] {
      if j == |s| {
        assert t[i] == s[i];
      } else {
        assert t[i] == s[i] && t[j] == s[j];
      }
    }
  }

  lemma PutWellFormed(s: Store, k: string, e: Entry)
    requires WellFormed(s)
    ensures WellFormed(Put(s, k, e))
    ensures |Put(s, k, e).order| == if k in s.entries then |s.order| else |s.order| + 1
  {
    if k !in s.entries {
      AppendNoDup(s.order, k);
    }
  }

  lemma DelWellFormed(s: Store, k: string)
    requires WellFormed(s)
    ensures WellFormed(Del(s, k))
    ensures |Del(s, k).order| == if k in s.entries then |s.order| - 1 else |s.order|
  {
    RemoveLength(s.order, k);
  }

  lemma {:induction false} DistinctCard(s: seq<string>)
    requires NoDup(s)
    ensures |(set x | x in s)| == |s|
  {
    if s != [] {
      var init := s[..|s| - 1];
      var last := s[|s| - 1];
      assert s == init + [last];
      assert NoDup(init) by {
        forall i, j | 0 <= i < j < |init| ensures init[i] != init[j] {
          assert init[i] == s[i] && init[j] == s[j];
        }
      }
      DistinctCard(init);
      assert last !in init by {
        forall i | 0 <= i < |init| ensures init[i] != last {
          assert init[i] == s[i];
        }
      }
      assert (set x | x in s) == (set x | x in init) + {last};
    }
  }

  /** `cache.size` is the length of the key order. */
  lemma SizeIsOrderLength(s: Store)
    requires WellFormed(s)
    ensures |s.entries| == |s.order|
  {
    assert s.entries.Keys == set x | x in s.order;
    DistinctCard(s.order);
  }

  /** What `get` does to the map: a present entry is refreshed, with nothing
      else changed. */
  function Touch(s: Store, k: string, now: int, expirySeconds: int): Store {
    if k in s.entries then
      Store(s.order, s.entries[k := s.entries[k].(expires := CalculateExpiryTime(now, expirySeconds), accessed := now)])
    else s
  }

  lemma TouchKeeps(s: Store, k: string, now: int, expirySeconds: int)
    requires WellFormed(s)
    ensures var r := Touch(s, k, now, expirySeconds);
      && WellFormed(r) && r.order == s.order
      && (k in s.entries ==> r.entries[k].value == s.entries[k].value && r.entries[k].added == s.entries[k].added)
      && forall x :: x in s.entries && x != k ==> r.entries[x] == s.entries[x]
  {
  }

  // ---------------------------------------------------------------------------
  // Sweeping expired entries

  /** Whether `cleanUp` at `now` keeps key `k`. */
  predicate Live(s: Store, now: int, k: string) {
    k in s.entries && !Reached(s.entries[k].expires, now)
  }

  /** The map after the `forEach` of `cleanUp` has visited `keys`, each
      expired one deleted; expiry is read from the map as it was. */
  function SweepKeys(s0: Store, keys: seq<string>, now: int): Store
    decreases |keys|
  {
    if keys == [] then s0
    else
      var t := SweepKeys(s0, keys[..|keys| - 1], now);
      var k := keys[|keys| - 1];
      if k in s0.entries && Reached(s0.entries[k].expires, now) then Del(t, k) else t
  }

  /** Whether a key survives after `keys` have been visited. */
  predicate Spared(s0: Store, keys: seq<string>, now: int, k: string) {
    !(k in keys && k in s0.entries && Reached(s0.entries[k].expires, now))
  }

  lemma {:induction false} FilterSame<T(!new)>(f: T -> bool, g: T -> bool, s: seq<T>)
    requires forall x :: x in s ==> f(x) == g(x)
    ensures Filter(f, s) == Filter(g, s)
  {
    if s != [] {
      FilterSame(f, g, s[1..]);
    }
  }

  /** Removing one key from a filtered sequence filters by the conjunction. */
  lemma {:induction false} RemoveFilter<T(!new)>(f: T -> bool, h: T -> bool, s: seq<T>, k: T)
    requires forall x :: x in s ==> h(x) == (f(x) && x != k)
    ensures Remove(Filter(f, s), k) == Filter(h, s)
  {
    if s != [] {
      var x, rest := s[0], s[1..];
      assert forall y :: y in rest ==> y in s;
      RemoveFilter(f, h, rest, k);
      var fr := Filter(f, rest);
      if f(x) {
        assert Filter(f, s) == [x] + fr;
        RemoveCons(x, fr, k);
      } else {
        assert Filter(f, s) == fr;
      }
    }
  }

  /** Visiting one more key spares what was spared before, except that key
      when it has expired. */
  lemma SparedStep(s0: Store, keys: seq<string>, now: int)
    requires keys != []
    ensures var init, k := keys[..|keys| - 1], keys[|keys| - 1];
      forall x :: Spared(s0, keys, now, x) == (Spared(s0, init, now, x) && !(x == k && x in s0.entries && Reached(s0.entries[x].expires, now)))
  {
    var init, k := keys[..|keys| - 1], keys[|keys| - 1];
    assert keys == init + [k];
    assert forall x :: x in keys <==> x in init || x == k;
  }

  lemma {:induction false} SweepKeysOrder(s0: Store, keys: seq<string>, now: int)
    ensures SweepKeys(s0, keys, now).order == Filter(k => Spared(s0, keys, now, k), s0.order)
    decreases |keys|
  {
    if keys == [] {
      FilterSame(k => Spared(s0, keys, now, k), y => true, s0.order);
      FilterAllKept(y => true, s0.order);
    } else {
      var init, k := keys[..|keys| - 1], keys[|keys| - 1];
      SweepKeysOrder(s0, init, now);
      SparedStep(s0, keys, now);
      if k in s0.entries && Reached(s0.entries[k].expires, now) {
        RemoveFilter(x => Spared(s0, init, now, x), x => Spared(s0, keys, now, x), s0.order, k);
      } else {
        FilterSame(x => Spared(s0, init, now, x), x => Spared(s0, keys, now, x), s0.order);
      }
    }
  }

  lemma {:induction false} SweepKeysEntries(s0: Store, keys: seq<string>, now: int)
    ensures SweepKeys(s0, keys, now).entries == map k | k in s0.entries && Spared(s0, keys, now, k) :: s0.entries[k]
    decreases |keys|
  {
    if keys != [] {
      var init, k := keys[..|keys| - 1], keys[|keys| - 1];
      SweepKeysEntries(s0, init, now);
      SparedStep(s0, keys, now);
      var m := map x | x in s0.entries && Spared(s0, keys, now, x) :: s0.entries[x];
      var r := SweepKeys(s0, keys, now);
      assert forall x :: x in r.entries <==> x in m;
      assert forall x :: x in m ==> r.entries[x] == m[x];
    }
  }

  /** The `forEach` of `cleanUp` reaches the key at `i` with its entry
      untouched, and deletes it when it has expired. */
  lemma SweepStep(s: Store, i: nat, now: int)
    requires WellFormed(s) && i < |s.order|
    ensures var k, t := s.order[i], SweepKeys(s, s.order[..i], now);
      && k in t.entries && t.entries[k] == s.entries[k]
      && SweepKeys(s, s.order[..i + 1], now) == if Reached(t.entries[k].expires, now) then Del(t, k) else t
  {
    var k := s.order[i];
    assert s.order[..i + 1][..i] == s.order[..i];
    assert k !in s.order[..i] by {
      forall j | 0 <= j < i ensures s.order[..i][j] != k {
        assert s.order[j] != s.order[i];
      }
    }
    SweepKeysEntries(s, s.order[..i], now);
  }

  /** `cleanUp` at `now` removes exactly the entries whose expiry is reached,
      leaves every other entry as it was, and keeps the order of the rest. */
  lemma CleanUpExact(s: Store, now: int)
    requires WellFormed(s)
    ensures var r := SweepKeys(s, s.order, now);
      && WellFormed(r)
      && r.order == Filter(k => Live(s, now, k), s.order)
      && (forall k :: k in r.entries <==> Live(s, now, k))
      && (forall k :: k in r.entries ==> r.entries[k] == s.entries[k])
  {
    SweepKeysOrder(s, s.order, now);
    SweepKeysEntries(s, s.order, now);
    FilterSame(k => Spared(s, s.order, now, k), k => Live(s, now, k), s.order);
    FilterNoDup(k => Live(s, now, k), s.order);
  }

  // ---------------------------------------------------------------------------
  // Eviction (dist/esm/Cache.js)

  /** Where the scan of the eviction loop stands: it met an expired entry at
      index `at`, or it is tracking the oldest-accessed entry seen so far. */
  datatype Scan = Expired(at: nat) | Oldest(best: Option<nat>)

  /** The eviction loop over the keys `keys`, in order. */
  function ScanKeys(keys: seq<string>, entries: map<string, Entry>, now: int): (r: Scan)
    requires forall i :: 0 <= i < |keys| ==> keys[i] in entries
    ensures r.Expired? ==> r.at < |keys|
    ensures r.Oldest? ==> (r.best.Some? <==> keys != []) && (r.best.Some? ==> r.best.value < |keys|)
    decreases |keys|
  {
    if keys == [] then Oldest(None)
    else
      var n := |keys| - 1;
      match ScanKeys(keys[..n], entries, now)
      case Expired(i) => Expired(i)
      case Oldest(best) =>
        var e := entries[keys[n]];
        if Reached(e.expires, now) then Expired(n)
        else if best.None? || e.accessed < entries[keys[best.value]].accessed then Oldest(Some(n))
        else Oldest(best)
  }

  /** The scan stops at the first expired entry; without one it has seen
      every entry unexpired. */
  lemma {:induction false} ScanFirstExpired(keys: seq<string>, entries: map<string, Entry>, now: int)
    requires forall i :: 0 <= i < |keys| ==> keys[i] in entries
    ensures var r := ScanKeys(keys, entries, now);
      && (r.Expired? ==> Reached(entries[keys[r.at]].expires, now)
                         && forall j :: 0 <= j < r.at ==> !Reached(entries[keys[j]].expires, now))
      && (r.Oldest? ==> forall j :: 0 <= j < |keys| ==> !Reached(entries[keys[j]].expires, now))
    decreases |keys|
  {
    if keys != [] {
      var n := |keys| - 1;
      assert forall j :: 0 <= j < n ==> keys[..n][j] == keys[j];
      ScanFirstExpired(keys[..n], entries, now);
    }
  }

  /** Without an expired entry the scan picks the least recently accessed
      entry, the first one on ties. */
  lemma {:induction false} ScanOldest(keys: seq<string>, entries: map<string, Entry>, now: int)
    requires forall i :: 0 <= i < |keys| ==> keys[i] in entries
    ensures var r := ScanKeys(keys, entries, now);
      r.Oldest? && r.best.Some? ==>
        var a := entries[keys[r.best.value]].accessed;
        && (forall j :: 0 <= j < |keys| ==> a <= entries[keys[j]].accessed)
        && (forall j :: 0 <= j < r.best.value ==> a < entries[keys[j]].accessed)
    decreases |keys|
  {
    if keys != [] {
      var n := |keys| - 1;
      var init := keys[..n];
      assert forall j :: 0 <= j < n ==> init[j] == keys[j];
      ScanOldest(init, entries, now);
      var r0 := ScanKeys(init, entries, now);
      var e := entries[keys[n]];
      if r0.Oldest? && !Reached(e.expires, now) {
        if r0.best.Some? {
          var b := entries[init[r0.best.value]].accessed;
          if e.accessed < b {
            assert forall j :: 0 <= j < n ==> e.accessed < entries[keys[j]].accessed;
          } else {
            assert keys[r0.best.value] == init[r0.best.value];
          }
        }
      }
    }
  }

  /** The scan over one more key. */
  lemma ScanStep(keys: seq<string>, entries: map<string, Entry>, now: int, i: nat)
    requires i < |keys| && forall j :: 0 <= j < |keys| ==> keys[j] in entries
    ensures var r, e := ScanKeys(keys[..i], entries, now), entries[keys[i]];
      ScanKeys(keys[..i + 1], entries, now) ==
        if r.Expired? then r
        else if Reached(e.expires, now) then Expired(i)
        else if r.best.None? || e.accessed < entries[keys[r.best.value]].accessed then Oldest(Some(i))
        else r
  {
    assert keys[..i + 1][..i] == keys[..i];
  }

  /** The loop step at an expired entry: the scan stops there. */
  lemma ScanExpires(keys: seq<string>, entries: map<string, Entry>, now: int, i: nat)
    requires i < |keys| && forall j :: 0 <= j < |keys| ==> keys[j] in entries
    requires ScanKeys(keys[..i], entries, now).Oldest?
    requires Reached(entries[keys[i]].expires, now)
    ensures ScanKeys(keys[..i + 1], entries, now) == Expired(i)
  {
    ScanStep(keys, entries, now, i);
  }

  /** The loop step at an unexpired entry: it becomes the oldest when none
      is tracked yet or it was accessed strictly earlier. */
  lemma ScanAdvance(keys: seq<string>, entries: map<string, Entry>, now: int, i: nat, oldest: Option<nat>, oldestAccessed: int)
    requires i < |keys| && forall j :: 0 <= j < |keys| ==> keys[j] in entries
    requires ScanKeys(keys[..i], entries, now) == Oldest(oldest)
    requires oldest.Some? ==> oldest.value < i && oldestAccessed == entries[keys[oldest.value]].accessed
    requires !Reached(entries[keys[i]].expires, now)
    ensures ScanKeys(keys[..i + 1], entries, now)
      == Oldest(if oldest.None? || entries[keys[i]].accessed < oldestAccessed then Some(i) else oldest)
  {
    ScanStep(keys, entries, now, i);
  }

  /** Once the scan has met an expired entry, later keys change nothing. */
  lemma {:induction false} ScanStops(keys: seq<string>, m: nat, entries: map<string, Entry>, now: int)
    requires m <= |keys|
    requires forall i :: 0 <= i < |keys| ==> keys[i] in entries
    requires ScanKeys(keys[..m], entries, now).Expired?
    ensures ScanKeys(keys, entries, now) == ScanKeys(keys[..m], entries, now)
    decreases |keys| - m
  {
    if m < |keys| {
      assert keys[..m + 1][..m] == keys[..m];
      ScanStops(keys, m + 1, entries, now);
    } else {
      assert keys[..m] == keys;
    }
  }

  /** The index of the entry the eviction pass deletes. */
  function VictimAt(s: Store, now: int): (i: nat)
    requires WellFormed(s) && s.order != []
    ensures i < |s.order|
  {
    match ScanKeys(s.order, s.entries, now)
    case Expired(i) => i
    case Oldest(best) => best.value
  }

  lemma OrderInEntries(s: Store)
    requires WellFormed(s)
    ensures forall j :: 0 <= j < |s.order| ==> s.order[j] in s.entries
  {
    forall j | 0 <= j < |s.order| ensures s.order[j] in s.entries {
      assert s.order[j] in s.order;
    }
  }

  /** The `for...of` loop over `cache.entries()` of the esm `set`: the index
      of the first expired key, or else of the least recently accessed one. */
  method ScanVictim(keys: seq<string>, m: map<string, Entry>, now: int) returns (i: nat)
    requires keys != [] && forall j :: 0 <= j < |keys| ==> keys[j] in m
    ensures var r := ScanKeys(keys, m, now);
      i == if r.Expired? then r.at else r.best.value
  {
    var oldest: Option<nat> := None;
    var oldestAccessed := 0;
    i := 0;
    while i < |keys|
      invariant 0 <= i <= |keys|
      invariant ScanKeys(keys[..i], m, now) == Oldest(oldest)
      invariant oldest.Some? ==> oldest.value < i && oldestAccessed == m[keys[oldest.value]].accessed
    {
      var entry := m[keys[i]];
      if Reached(entry.expires, now) {
        ScanExpires(keys, m, now, i);
        ScanStops(keys, i + 1, m, now);
        return;
      }
      ScanAdvance(keys, m, now, i, oldest, oldestAccessed);
      if oldest.None? || entry.accessed < oldestAccessed {
        oldest := Some(i);
        oldestAccessed := entry.accessed;
      }
      i := i + 1;
    }
    assert keys[..i] == keys;
    i := oldest.value;
  }

  /** The victim is where the scan of the whole map ends. */
  lemma VictimOfScan(s: Store, now: int)
    requires WellFormed(s) && s.order != []
    ensures var r := ScanKeys(s.order, s.entries, now);
      VictimAt(s, now) == if r.Expired? then r.at else r.best.value
  {
  }

  /** The victim is the first expired entry in insertion order, or, with
      none expired, the least recently accessed one, the first on ties. */
  lemma VictimChoice(s: Store, now: int)
    requires WellFormed(s) && s.order != []
    ensures var i := VictimAt(s, now);
      var v := s.order[i];
      && (Reached(s.entries[v].expires, now) ==> forall j :: 0 <= j < i ==> !Reached(s.entries[s.order[j]].expires, now))
      && (!Reached(s.entries[v].expires, now) ==>
            && (forall j :: 0 <= j < |s.order| ==> !Reached(s.entries[s.order[j]].expires, now))
            && (forall j :: 0 <= j < |s.order| ==> s.entries[v].accessed <= s.entries[s.order[j]].accessed)
            && (forall j :: 0 <= j < i ==> s.entries[v].accessed < s.entries[s.order[j]].accessed))
  {
    ScanFirstExpired(s.order, s.entries, now);
    ScanOldest(s.order, s.entries, now);
  }

  /** The eviction pass of `set`: it runs when eviction is enabled, the map
      is full and the key is new, and deletes one entry. */
  function Admit(s: Store, key: string, maxEntries: nat, now: int): Store
    requires WellFormed(s)
  {
    if maxEntries > 0 && |s.order| >= maxEntries && key !in s.entries then
      Del(s, s.order[VictimAt(s, now)])
    else s
  }

  /** The map after `set(key, …)` with the JSON text `json`. */
  function SetSpec(s: Store, key: string, json: string, expirySeconds: int, maxEntries: nat, now: int): Store
    requires WellFormed(s)
  {
    Put(Admit(s, key, maxEntries, now), key, Entry(json, now, now, CalculateExpiryTime(now, expirySeconds)))
  }

  /** After `set`, the key holds the new entry; of the other keys every entry
      is unchanged, and at most the evicted one is gone. */
  lemma SetStores(s: Store, key: string, json: string, expirySeconds: int, maxEntries: nat, now: int)
    requires WellFormed(s)
    ensures var r := SetSpec(s, key, json, expirySeconds, maxEntries, now);
      && WellFormed(r)
      && key in r.entries && r.entries[key] == Entry(json, now, now, CalculateExpiryTime(now, expirySeconds))
      && (forall k :: k in r.entries && k != key ==> k in s.entries && r.entries[k] == s.entries[k])
      && (key in s.entries ==> r.order == s.order)
  {
    var a := Admit(s, key, maxEntries, now);
    if maxEntries > 0 && |s.order| >= maxEntries && key !in s.entries {
      DelWellFormed(s, s.order[VictimAt(s, now)]);
    }
    PutWellFormed(a, key, Entry(json, now, now, CalculateExpiryTime(now, expirySeconds)));
  }

  /** The eviction pass runs only when eviction is enabled, the map is full
      and the key is new; then exactly one entry goes: the first expired one
      in insertion order, or else the least recently accessed, the first on
      ties. */
  lemma AdmitEvicts(s: Store, key: string, maxEntries: nat, now: int)
    requires WellFormed(s)
    ensures var a := Admit(s, key, maxEntries, now);
      && (!(maxEntries > 0 && |s.order| >= maxEntries && key !in s.entries) ==> a == s)
      && (maxEntries > 0 && |s.order| >= maxEntries && key !in s.entries ==>
            var i := VictimAt(s, now);
            var v := s.order[i];
            && a.entries == s.entries - {v} && |a.order| == |s.order| - 1
            && (Reached(s.entries[v].expires, now) ==> forall j :: 0 <= j < i ==> !Reached(s.entries[s.order[j]].expires, now))
            && (!Reached(s.entries[v].expires, now) ==>
                  && (forall j :: 0 <= j < |s.order| ==> !Reached(s.entries[s.order[j]].expires, now))
                  && (forall j :: 0 <= j < |s.order| ==> s.entries[v].accessed <= s.entries[s.order[j]].accessed)
                  && (forall j :: 0 <= j < i ==> s.entries[v].accessed < s.entries[s.order[j]].accessed)))
  {
    if maxEntries > 0 && |s.order| >= maxEntries && key !in s.entries {
      DelWellFormed(s, s.order[VictimAt(s, now)]);
      VictimChoice(s, now);
    }
  }

  /** `set` never takes a map within its bound beyond it. */
  lemma SetBounded(s: Store, key: string, json: string, expirySeconds: int, maxEntries: nat, now: int)
    requires WellFormed(s) && maxEntries > 0 && |s.entries| <= maxEntries
    ensures |SetSpec(s, key, json, expirySeconds, maxEntries, now).entries| <= maxEntries
  {
    var a := Admit(s, key, maxEntries, now);
    SizeIsOrderLength(s);
    if |s.order| >= maxEntries && key !in s.entries {
      DelWellFormed(s, s.order[VictimAt(s, now)]);
    }
    SetStores(s, key, json, expirySeconds, maxEntries, now);
    PutWellFormed(a, key, Entry(json, now, now, CalculateExpiryTime(now, expirySeconds)));
    SizeIsOrderLength(SetSpec(s, key, json, expirySeconds, maxEntries, now));
  }

  // ---------------------------------------------------------------------------
  // The last-write-wins join

  /** `joinCache(data)` once the `for…in` has visited `data`, in that order. */
  function JoinAll(s: Store, data: seq<(string, Entry)>): Store
    decreases |data|
  {
    if data == [] then s
    else
      var t := JoinAll(s, data[..|data| - 1]);
      var (k, e) := data[|data| - 1];
      var added := if k in t.entries then t.entries[k].added else e.added;
      if added <= e.added then Put(t, k, e) else t
  }

  function Keys(data: seq<(string, Entry)>): (r: seq<string>)
    ensures |r| == |data| && forall i :: 0 <= i < |data| ==> r[i] == data[i].0
  {
    seq(|data|, i requires 0 <= i < |data| => data[i].0)
  }

  /** The entry the join keeps for a key: the incoming one when the key is
      new or the local one is not younger. */
  function Winner(s: Store, k: string, e: Entry): Entry {
    if k !in s.entries || s.entries[k].added <= e.added then e else s.entries[k]
  }

  lemma KeysSnoc(data: seq<(string, Entry)>)
    requires data != []
    ensures Keys(data) == Keys(data[..|data| - 1]) + [data[|data| - 1].0]
  {
  }

  /** No key of `data` repeats an earlier one, stated one step at a time. */
  predicate DistinctKeys(data: seq<(string, Entry)>)
    decreases |data|
  {
    data == [] || (data[|data| - 1].0 !in Keys(data[..|data| - 1]) && DistinctKeys(data[..|data| - 1]))
  }

  lemma {:induction false} DistinctKeysOf(data: seq<(string, Entry)>)
    requires NoDup(Keys(data))
    ensures DistinctKeys(data)
    decreases |data|
  {
    if data != [] {
      var n := |data| - 1;
      assert Keys(data[..n]) == Keys(data)[..n];
      forall j | 0 <= j < n ensures Keys(data[..n])[j] != data[n].0 {
        assert Keys(data)[j] != Keys(data)[n];
      }
      DistinctKeysOf(data[..n]);
    }
  }

  /** After a join, the key at index `i` of `data` holds the winner of its
      local and incoming entries. */
  lemma {:induction false} JoinWinner(s: Store, data: seq<(string, Entry)>, i: nat)
    requires DistinctKeys(data) && i < |data|
    ensures var r, k := JoinAll(s, data), data[i].0;
      k in r.entries && r.entries[k] == Winner(s, k, data[i].1)
    decreases |data|
  {
    var n := |data| - 1;
    var init, k, e := data[..n], data[n].0, data[n].1;
    var t := JoinAll(s, init);
    if i == n {
      JoinUntouched(s, init, k);
    } else {
      JoinWinner(s, init, i);
      assert init[i] == data[i] && Keys(init)[i] == data[i].0;
    }
  }

  /** A key that `data` does not name keeps its entry, or its absence. */
  lemma {:induction false} JoinUntouched(s: Store, data: seq<(string, Entry)>, k: string)
    requires k !in Keys(data)
    ensures var r := JoinAll(s, data);
      && (k in r.entries <==> k in s.entries)
      && (k in s.entries ==> r.entries[k] == s.entries[k])
    decreases |data|
  {
    if data != [] {
      var n := |data| - 1;
      assert Keys(data[..n]) == Keys(data)[..n];
      assert k != Keys(data)[n];
      JoinUntouched(s, data[..n], k);
    }
  }

  /** One step of the join appends its key to the order when the key is new. */
  lemma JoinStepOrder(s: Store, data: seq<(string, Entry)>)
    requires data != []
    ensures var t, k := JoinAll(s, data[..|data| - 1]), data[|data| - 1].0;
      JoinAll(s, data).order == t.order + (if k in t.entries then [] else [k])
  {
  }

  /** The order after a join: keys new to the map follow the old ones, in
      the order of `data`. */
  lemma {:induction false} JoinOrder(s: Store, data: seq<(string, Entry)>)
    requires DistinctKeys(data)
    ensures JoinAll(s, data).order == s.order + Filter(k => k !in s.entries, Keys(data))
    decreases |data|
  {
    if data != [] {
      var n := |data| - 1;
      var init := data[..n];
      var k := data[n].0;
      KeysSnoc(data);
      JoinOrder(s, init);
      JoinUntouched(s, init, k);
      JoinStepOrder(s, data);
      var tail := if k in s.entries then [] else [k];
      FilterAppend(x => x !in s.entries, Keys(init), [k]);
      FilterSingle(x => x !in s.entries, k);
      var f := Filter(x => x !in s.entries, Keys(init));
      AppendAssoc(s.order, f, tail);
    }
  }

  /** Last write wins: every key of `data` holds the winner of its local and
      incoming entries, whose `added` is the larger of the two; other keys
      are untouched; new keys follow the old ones in the order of `data`. */
  lemma JoinWins(s: Store, data: seq<(string, Entry)>)
    requires WellFormed(s) && NoDup(Keys(data))
    ensures var r := JoinAll(s, data);
      && WellFormed(r)
      && (forall i :: 0 <= i < |data| ==> data[i].0 in r.entries && r.entries[data[i].0] == Winner(s, data[i].0, data[i].1))
      && (forall k :: k !in Keys(data) ==> (k in r.entries <==> k in s.entries))
      && (forall k :: k !in Keys(data) && k in s.entries ==> r.entries[k] == s.entries[k])
      && r.order == s.order + Filter(k => k !in s.entries, Keys(data))
  {
    JoinWellFormed(s, data);
    DistinctKeysOf(data);
    forall i | 0 <= i < |data| ensures data[i].0 in JoinAll(s, data).entries && JoinAll(s, data).entries[data[i].0] == Winner(s, data[i].0, data[i].1) {
      JoinWinner(s, data, i);
    }
    forall k | k !in Keys(data) ensures (k in JoinAll(s, data).entries <==> k in s.entries) && (k in s.entries ==> JoinAll(s, data).entries[k] == s.entries[k]) {
      JoinUntouched(s, data, k);
    }
    JoinOrder(s, data);
  }

  lemma {:induction false} JoinWellFormed(s: Store, data: seq<(string, Entry)>)
    requires WellFormed(s)
    ensures WellFormed(JoinAll(s, data))
    decreases |data|
  {
    if data != [] {
      JoinWellFormed(s, data[..|data| - 1]);
      PutWellFormed(JoinAll(s, data[..|data| - 1]), data[|data| - 1].0, data[|data| - 1].1);
    }
  }

  lemma WinnerAdded(s: Store, k: string, e: Entry)
    requires k in s.entries
    ensures Winner(s, k, e).added == if s.entries[k].added <= e.added then e.added else s.entries[k].added
    ensures Winner(s, k, e) == e || Winner(s, k, e) == s.entries[k]
  {
  }

  /** An index at which `x` occurs in `s`. */
  lemma {:induction false} Position(s: seq<string>, x: string) returns (i: nat)
    requires x in s
    ensures i < |s| && s[i] == x
  {
    if s[0] == x {
      i := 0;
    } else {
      assert x in s[1..];
      i := Position(s[1..], x);
      i := i + 1;
    }
  }

  // ---------------------------------------------------------------------------
  // The key order of a JavaScript object

  /** A key that a JavaScript object treats as an array index: the canonical
      decimal form of an integer below 2^32 - 1, such as "7" (not "07", "-1"
      or "1e3"). */
  predicate ArrayIndex(k: string) {
    && k != ""
    && Decimal(k)
    && (k[0] != '0' || |k| == 1)
    && DigitsValue(k, 10) < 0xFFFF_FFFF
  }

  /** Every character is a decimal digit. */
  predicate Decimal(k: string) {
    k == "" || (DigitValue(k[0]) < 10 && Decimal(k[1..]))
  }

  /** Any other key. */
  predicate NamedKey(k: string) {
    !ArrayIndex(k)
  }

  /** The numeric value of an array-index key. */
  function IndexValue(k: string): int {
    DigitsValue(k, 10)
  }

  /** Places `k` before the first key of `s` with a larger value under `v`. */
  function InsertBy(k: string, s: seq<string>, v: string -> int): (r: seq<string>)
    ensures multiset(r) == multiset(s) + multiset{k}
  {
    if s == [] then [k]
    else if v(k) <= v(s[0]) then [k] + s
    else
      assert s == [s[0]] + s[1..];
      [s[0]] + InsertBy(k, s[1..], v)
  }

  function SortBy(s: seq<string>, v: string -> int): (r: seq<string>)
    ensures multiset(r) == multiset(s)
  {
    if s == [] then []
    else
      assert s == s[..|s| - 1] + [s[|s| - 1]];
      InsertBy(s[|s| - 1], SortBy(s[..|s| - 1], v), v)
  }

  predicate AscendingBy(s: seq<string>, v: string -> int) {
    forall i, j :: 0 <= i < j < |s| ==> v(s[i]) <= v(s[j])
  }

  /** The order in which an object created with keys in `order` lists its
      own keys (`for...in`, `JSON.stringify`): array indices first, in
      ascending numeric order, then the other keys in creation order. */
  function ObjectOrder(order: seq<string>): (r: seq<string>)
    ensures multiset(r) == multiset(order)
    ensures forall k :: k in r <==> k in order
  {
    var r := SortBy(Filter(ArrayIndex, order), IndexValue) + Filter(NamedKey, order);
    FilterPartition(order);
    assert forall k :: k in r <==> k in multiset(r);
    r
  }

  lemma {:induction false} FilterPartition(s: seq<string>)
    ensures multiset(Filter(ArrayIndex, s)) + multiset(Filter(NamedKey, s)) == multiset(s)
  {
    if s != [] {
      var t := s[1..];
      FilterPartition(t);
      assert s == [s[0]] + t;
      var a, b := Filter(ArrayIndex, t), Filter(NamedKey, t);
      if ArrayIndex(s[0]) {
        assert Filter(ArrayIndex, s) == [s[0]] + a;
        assert Filter(NamedKey, s) == [] + b;
      } else {
        assert Filter(ArrayIndex, s) == [] + a;
        assert Filter(NamedKey, s) == [s[0]] + b;
      }
    }
  }

  lemma {:induction false} InsertByAscending(k: string, s: seq<string>, v: string -> int)
    requires AscendingBy(s, v)
    ensures AscendingBy(InsertBy(k, s, v), v)
  {
    if s != [] && v(k) > v(s[0]) {
      var t := s[1..];
      InsertByAscending(k, t, v);
      var r := InsertBy(k, t, v);
      forall j | 0 <= j < |r| ensures v(s[0]) <= v(r[j]) {
        InsertByMember(k, t, r[j], v);
        if r[j] != k {
          var m :| 0 <= m < |t| && t[m] == r[j];
          assert s[m + 1] == t[m];
        }
      }
      ConsAscendingBy(s[0], r, v);
    }
  }

  lemma InsertByMember(k: string, s: seq<string>, y: string, v: string -> int)
    requires y in InsertBy(k, s, v)
    ensures y == k || y in s
  {
    assert y in multiset(InsertBy(k, s, v));
  }

  lemma ConsAscendingBy(a: string, r: seq<string>, v: string -> int)
    requires AscendingBy(r, v) && forall j :: 0 <= j < |r| ==> v(a) <= v(r[j])
    ensures AscendingBy([a] + r, v)
  {
    var u := [a] + r;
    forall i, j | 0 <= i < j < |u| ensures v(u[i]) <= v(u[j]) {
      if i == 0 {
        assert u[i] == a && u[j] == r[j - 1];
      } else {
        assert u[i] == r[i - 1] && u[j] == r[j - 1];
      }
    }
  }

  lemma {:induction false} SortByAscending(s: seq<string>, v: string -> int)
    ensures AscendingBy(SortBy(s, v), v)
  {
    if s != [] {
      SortByAscending(s[..|s| - 1], v);
      InsertByAscending(s[|s| - 1], SortBy(s[..|s| - 1], v), v);
    }
  }

  lemma ConsNoDup(x: string, s: seq<string>)
    requires NoDup(s) && x !in s
    ensures NoDup([x] + s)
  {
    var u := [x] + s;
    forall i, j | 0 <= i < j < |u| ensures u[i] != u[j] {
      assert u[j] == s[j - 1];
      if i > 0 {
        assert u[i] == s[i - 1];
      }
    }
  }

  lemma {:induction false} InsertByNoDup(k: string, s: seq<string>, v: string -> int)
    requires NoDup(s) && k !in s
    ensures NoDup(InsertBy(k, s, v))
  {
    if s == [] {
    } else if v(k) <= v(s[0]) {
      ConsNoDup(k, s);
    } else {
      var t := s[1..];
      assert NoDup(t) by {
        forall i, j | 0 <= i < j < |t| ensures t[i] != t[j] { assert s[i + 1] != s[j + 1]; }
      }
      assert s[0] !in t by {
        forall m | 0 <= m < |t| ensures t[m] != s[0] { assert s[m + 1] != s[0]; }
      }
      InsertByNoDup(k, t, v);
      var r := InsertBy(k, t, v);
      assert s[0] !in multiset(r);
      ConsNoDup(s[0], r);
    }
  }

  lemma {:induction false} SortByNoDup(s: seq<string>, v: string -> int)
    requires NoDup(s)
    ensures NoDup(SortBy(s, v))
  {
    if s != [] {
      var n := |s| - 1;
      var init := s[..n];
      assert NoDup(init) by {
        forall i, j | 0 <= i < j < n ensures init[i] != init[j] { assert s[i] != s[j]; }
      }
      assert s[n] !in multiset(SortBy(init, v)) by {
        forall m | 0 <= m < n ensures init[m] != s[n] { assert s[m] != s[n]; }
        assert s[n] !in init;
      }
      SortByNoDup(init, v);
      InsertByNoDup(s[n], SortBy(init, v), v);
    }
  }

  lemma DisjointNoDup(a: seq<string>, b: seq<string>)
    requires NoDup(a) && NoDup(b) && forall x :: x in a ==> x !in b
    ensures NoDup(a + b)
  {
    var u := a + b;
    forall i, j | 0 <= i < j < |u| ensures u[i] != u[j] {
      if j >= |a| {
        assert u[j] == b[j - |a|] && u[j] in b;
        if i >= |a| {
          assert u[i] == b[i - |a|];
        } else {
          assert u[i] == a[i] && u[i] in a;
        }
      }
    }
  }

  /** Keys without repetition list each key once in object order too. */
  lemma ObjectOrderNoDup(order: seq<string>)
    requires NoDup(order)
    ensures NoDup(ObjectOrder(order))
  {
    var a := SortBy(Filter(ArrayIndex, order), IndexValue);
    FilterNoDup(ArrayIndex, order);
    FilterNoDup(NamedKey, order);
    SortByNoDup(Filter(ArrayIndex, order), IndexValue);
    forall x | x in a ensures x !in Filter(NamedKey, order) {
      assert x in multiset(a);
    }
    DisjointNoDup(a, Filter(NamedKey, order));
  }

  /** The rules of object key order: the same keys; an array index is never
      listed after another kind of key, and array indices ascend; the other
      keys keep their creation order. */
  lemma ObjectOrderRules(order: seq<string>)
    ensures var r := ObjectOrder(order);
      && multiset(r) == multiset(order)
      && (forall i, j :: 0 <= i < j < |r| && ArrayIndex(r[j]) ==> ArrayIndex(r[i]) && IndexValue(r[i]) <= IndexValue(r[j]))
      && Filter(NamedKey, r) == Filter(NamedKey, order)
  {
    var a := SortBy(Filter(ArrayIndex, order), IndexValue);
    var b := Filter(NamedKey, order);
    SortByAscending(Filter(ArrayIndex, order), IndexValue);
    forall i | 0 <= i < |a| ensures ArrayIndex(a[i]) {
      assert a[i] in multiset(a);
    }
    forall i | 0 <= i < |b| ensures NamedKey(b[i]) {
      assert b[i] in b;
    }
    IndicesFirst(a, b);
    NamedKept(a, b);
  }

  lemma IndicesFirst(a: seq<string>, b: seq<string>)
    requires AscendingBy(a, IndexValue) && forall i :: 0 <= i < |a| ==> ArrayIndex(a[i])
    requires forall i :: 0 <= i < |b| ==> NamedKey(b[i])
    ensures var r := a + b;
      forall i, j :: 0 <= i < j < |r| && ArrayIndex(r[j]) ==> ArrayIndex(r[i]) && IndexValue(r[i]) <= IndexValue(r[j])
  {
    var r := a + b;
    forall i, j | 0 <= i < j < |r| && ArrayIndex(r[j]) ensures ArrayIndex(r[i]) && IndexValue(r[i]) <= IndexValue(r[j]) {
      if j < |a| {
        assert r[i] == a[i] && r[j] == a[j];
      }
    }
  }

  lemma NamedKept(a: seq<string>, b: seq<string>)
    requires forall i :: 0 <= i < |a| ==> ArrayIndex(a[i])
    requires forall i :: 0 <= i < |b| ==> NamedKey(b[i])
    ensures Filter(NamedKey, a + b) == b
  {
    FilterAppend(NamedKey, a, b);
    FilterNone(NamedKey, a);
    FilterAllKept(NamedKey, b);
    assert [] + b == b;
  }

  /** Without array-index keys, object order is creation order. */
  lemma ObjectOrderNamed(order: seq<string>)
    requires forall i :: 0 <= i < |order| ==> NamedKey(order[i])
    ensures ObjectOrder(order) == order
  {
    FilterNone(ArrayIndex, order);
    FilterAllKept(NamedKey, order);
    assert [] + order == order;
  }

  /** An array-index key created last is still listed first. */
  lemma ObjectOrderExample()
    ensures ObjectOrder(["b", "7"]) == ["7", "b"]
  {
    ExampleFilters();
    SortOne("7", IndexValue);
  }

  lemma ExampleFilters()
    ensures Filter(ArrayIndex, ["b", "7"]) == ["7"]
    ensures Filter(NamedKey, ["b", "7"]) == ["b"]
  {
    SevenIsIndex();
    assert ["b", "7"] == ["b"] + ["7"];
    FilterAppend(ArrayIndex, ["b"], ["7"]);
    FilterAppend(NamedKey, ["b"], ["7"]);
    FilterSingle(ArrayIndex, "b");
    FilterSingle(ArrayIndex, "7");
    FilterSingle(NamedKey, "b");
    FilterSingle(NamedKey, "7");
  }

  lemma SevenIsIndex()
    ensures ArrayIndex("7") && !ArrayIndex("b")
  {
    assert "7"[..0] == "" && "7"[1..] == "";
    assert DigitsValue("7", 10) == 7;
    assert Decimal("7");
  }

  lemma SortOne(k: string, v: string -> int)
    ensures SortBy([k], v) == [k]
  {
    assert [k][..0] == [];
  }

  /** `Object.fromEntries([...cache])`: the entries, in object key order. */
  function Snapshot(s: Store): (r: seq<(string, Entry)>)
    requires WellFormed(s)
    ensures Keys(r) == ObjectOrder(s.order)
    ensures forall i :: 0 <= i < |r| ==> r[i].0 in s.entries && r[i].1 == s.entries[r[i].0]
  {
    EntriesOf(s, ObjectOrder(s.order))
  }

  /** The entries of `s` under `keys`, in that order. */
  function EntriesOf(s: Store, keys: seq<string>): (r: seq<(string, Entry)>)
    requires forall k :: k in keys ==> k in s.entries
    ensures Keys(r) == keys
    ensures forall i :: 0 <= i < |r| ==> r[i].0 in s.entries && r[i].1 == s.entries[r[i].0]
  {
    assert forall i :: 0 <= i < |keys| ==> keys[i] in keys;
    var r := seq(|keys|, i requires 0 <= i < |keys| => (keys[i], s.entries[keys[i]]));
    assert Keys(r) == keys;
    r
  }

  /** The map a peer holds after receiving `s`'s snapshot into an empty
      map: the same entries, in object key order. */
  function Resorted(s: Store): Store {
    Store(ObjectOrder(s.order), s.entries)
  }

  lemma SnapshotOrder(s: Store)
    requires WellFormed(s)
    ensures JoinAll(Empty, Snapshot(s)).order == ObjectOrder(s.order)
  {
    var d := Snapshot(s);
    ObjectOrderNoDup(s.order);
    DistinctKeysOf(d);
    JoinOrder(Empty, d);
    FilterAllKept(k => k !in Empty.entries, Keys(d));
    assert [] + Keys(d) == Keys(d);
  }

  lemma SnapshotEntry(s: Store, k: string)
    requires WellFormed(s) && k in s.entries
    ensures var r := JoinAll(Empty, Snapshot(s));
      k in r.entries && r.entries[k] == s.entries[k]
  {
    var d := Snapshot(s);
    ObjectOrderNoDup(s.order);
    DistinctKeysOf(d);
    var i := Position(ObjectOrder(s.order), k);
    assert Keys(d)[i] == k;
    JoinWinner(Empty, d, i);
  }

  /** A peer whose map is empty and that joins a snapshot ends up with the
      sender's entries, listed in object key order. */
  lemma JoinSnapshot(s: Store)
    requires WellFormed(s)
    ensures JoinAll(Empty, Snapshot(s)) == Resorted(s)
    ensures WellFormed(Resorted(s))
  {
    var d := Snapshot(s);
    var r := JoinAll(Empty, d);
    JoinWellFormed(Empty, d);
    SnapshotOrder(s);
    forall k | k in s.entries ensures k in r.entries && r.entries[k] == s.entries[k] {
      SnapshotEntry(s, k);
    }
    SameEntries(r, s, ObjectOrder(s.order));
  }

  /** Two well-formed stores with the same keys, agreeing on the entries of
      one, have the same entries. */
  lemma SameEntries(r: Store, s: Store, o: seq<string>)
    requires WellFormed(r) && WellFormed(s) && r.order == o
    requires forall k :: k in o <==> k in s.order
    requires forall k :: k in s.entries ==> k in r.entries && r.entries[k] == s.entries[k]
    ensures r == Store(o, s.entries)
  {
    assert r.entries.Keys == s.entries.Keys;
    assert r.entries == s.entries;
  }

  /** When no key is an array index, the peer's map is the sender's map,
      order included. */
  lemma JoinSnapshotNamed(s: Store)
    requires WellFormed(s) && forall i :: 0 <= i < |s.order| ==> NamedKey(s.order[i])
    ensures JoinAll(Empty, Snapshot(s)) == s
  {
    JoinSnapshot(s);
    ObjectOrderNamed(s.order);
  }

  /** A peer that receives a map holding "b" then "7" lists "7" first. */
  lemma JoinSnapshotIndexFirst(e: Entry, f: Entry)
    ensures var s := Store(["b", "7"], map["b" := e, "7" := f]);
      WellFormed(s) && JoinAll(Empty, Snapshot(s)).order == ["7", "b"]
  {
    var s := Store(["b", "7"], map["b" := e, "7" := f]);
    assert WellFormed(s);
    JoinSnapshot(s);
    ObjectOrderExample();
  }

  // ---------------------------------------------------------------------------
  // Entries over the bus

  /** A JSON number, or `null`, which `JSON.stringify` writes for `Infinity`. */
  datatype WireExpiry = Number(ms: int) | Null

  /** An entry as the peers' JSON carries it. */
  datatype WireEntry = WireEntry(value: string, added: int, accessed: int, expires: WireExpiry)

  /** `JSON.stringify` of an entry. */
  function ToWire(e: Entry): WireEntry {
    WireEntry(e.value, e.added, e.accessed, if e.expires.Never? then Null else Number(e.expires.ms))
  }

  /** An entry as the join stores it from the parsed JSON: `expires` is then
      `null`, which the cache's `<=` compares as `0`. */
  function FromWireAsWritten(w: WireEntry): Entry {
    Entry(w.value, w.added, w.accessed, if w.expires.Null? then At(0) else At(w.expires.ms))
  }

  /** The intended reading: `null` stands for `Infinity`. */
  function FromWire(w: WireEntry): Entry {
    Entry(w.value, w.added, w.accessed, if w.expires.Null? then Never else At(w.expires.ms))
  }

  /** Carried this way, an entry arrives as it was sent. */
  lemma FromWireToWire(e: Entry)
    ensures FromWire(ToWire(e)) == e
  {
  }

  function Received(data: seq<(string, WireEntry)>, asWritten: bool): (r: seq<(string, Entry)>)
    ensures |r| == |data|
    ensures forall i :: 0 <= i < |data| ==> r[i] == (data[i].0, if asWritten then FromWireAsWritten(data[i].1) else FromWire(data[i].1))
  {
    seq(|data|, i requires 0 <= i < |data| => (data[i].0, if asWritten then FromWireAsWritten(data[i].1) else FromWire(data[i].1)))
  }

  function OnWire(data: seq<(string, Entry)>): (r: seq<(string, WireEntry)>)
    ensures |r| == |data|
    ensures forall i :: 0 <= i < |data| ==> r[i] == (data[i].0, ToWire(data[i].1))
  {
    seq(|data|, i requires 0 <= i < |data| => (data[i].0, ToWire(data[i].1)))
  }

  /** As written, an entry that never expires, sent to a peer that does not
      hold its key, is deleted by the peer's next `cleanUp` at any time. */
  lemma SyncedNeverEntrySwept(k: string, e: Entry, now: int)
    requires e.expires.Never? && now >= 0
    ensures var r := JoinAll(Empty, Received(OnWire([(k, e)]), true));
      && k in r.entries
      && k !in SweepKeys(r, r.order, now).entries
  {
    var w := FromWireAsWritten(ToWire(e));
    assert w.expires == At(0);
    ReceivedOne(k, e);
    JoinOne(k, w);
    SweepOne(k, w, now);
  }

  lemma ReceivedOne(k: string, e: Entry)
    ensures Received(OnWire([(k, e)]), true) == [(k, FromWireAsWritten(ToWire(e)))]
  {
    assert OnWire([(k, e)])[0] == (k, ToWire(e));
  }

  /** Joining one entry into the empty map stores it. */
  lemma JoinOne(k: string, e: Entry)
    ensures JoinAll(Empty, [(k, e)]) == Store([k], map[k := e])
  {
    assert [(k, e)][..0] == [];
    assert JoinAll(Empty, [(k, e)][..0]) == Empty;
    assert [] + [k] == [k];
  }

  /** Sweeping a single expired entry deletes it. */
  lemma SweepOne(k: string, e: Entry, now: int)
    requires Reached(e.expires, now)
    ensures k !in SweepKeys(Store([k], map[k := e]), [k], now).entries
  {
    var s0 := Store([k], map[k := e]);
    assert [k][..0] == [];
    assert SweepKeys(s0, [k][..0], now) == s0;
  }

  /** With the intended reading, a peer that joins the snapshot of `s` from
      an empty map holds exactly the entries of `s`, in object key order. */
  lemma SyncedSnapshotExact(s: Store)
    requires WellFormed(s)
    ensures JoinAll(Empty, Received(OnWire(Snapshot(s)), false)) == Resorted(s)
  {
    var d := Snapshot(s);
    forall i | 0 <= i < |d| ensures FromWire(ToWire(d[i].1)) == d[i].1 {
      FromWireToWire(d[i].1);
    }
    assert Received(OnWire(d), false) == d;
    JoinSnapshot(s);
  }

  // ---------------------------------------------------------------------------
  // memoize

  /** The key `memoize` derives: `${name}__${JSONStringify(args)}`. */
  function MemoKey(name: string, argsJson: string): string {
    name + "__" + argsJson
  }

  /** For one wrapped function, different arguments give different keys. */
  lemma MemoKeyInjective(name: string, a: string, b: string)
    requires MemoKey(name, a) == MemoKey(name, b)
    ensures a == b
  {
    var p := name + "__";
    assert MemoKey(name, a)[|p|..] == a;
    assert MemoKey(name, b)[|p|..] == b;
  }

  /** What the wrapper returns: the parsed cached text, or `fn`'s result. */
  datatype Memo = Cached(text: string) | Computed(value: Value)

  /** The events the cache hands to the bus's `notify`. */
  datatype Event =
    | Update(key: string, value: string, expirySeconds: int)
    | Delete(key: string)
    | SyncRequest(data: seq<(string, WireEntry)>)
    | SyncResponse(data: seq<(string, WireEntry)>)

  datatype Build = Src | Esm

  /** The cache object with the module-level `Map` it works on. */
  class Cache {
    const defaultExpirySeconds: int
    /** `0` disables eviction: the src build has no bound. */
    const maxEntries: nat
    /** The keys of the `Map`, in insertion order. */
    var order: seq<string>
    var entries: map<string, Entry>
    /** The events handed to `notify` so far. */
    var outbox: seq<Event>

    ghost predicate Valid()
      reads this`order, this`entries
    {
      WellFormed(Store(order, entries))
    }

    function Contents(): Store
      reads this`order, this`entries
    {
      Store(order, entries)
    }

    /** `new Cache()` over an empty map. */
    constructor(build: Build)
      ensures Valid()
      ensures defaultExpirySeconds == 60 && maxEntries == (if build == Esm then 5000 else 0)
      ensures order == [] && entries == map[] && outbox == []
    {
      defaultExpirySeconds := 60;
      maxEntries := if build == Esm then 5000 else 0;
      order := [];
      entries := map[];
      outbox := [];
    }

    /** `expirySeconds` when it is a number, else the default. */
    function Seconds(expirySeconds: Option<int>): int {
      expirySeconds.GetOr(defaultExpirySeconds)
    }

    /** `cache.set(k, e)` on the `Map`. */
    method SetEntry(k: string, e: Entry)
      modifies this`order, this`entries
      ensures Contents() == Put(old(Contents()), k, e)
    {
      if k !in entries {
        order := order + [k];
      }
      entries := entries[k := e];
    }

    /** `cache.delete(k)` on the `Map`. */
    method DeleteEntry(k: string)
      modifies this`order, this`entries
      ensures Contents() == Del(old(Contents()), k)
    {
      order := Remove(order, k);
      entries := entries - {k};
    }

    /** `get size()`. */
    method Size() returns (n: nat)
      requires Valid()
      ensures n == |entries|
    {
      SizeIsOrderLength(Contents());
      n := |order|;
    }

    /** `has(key)`. */
    method Has(key: string) returns (b: bool)
      ensures b <==> key in entries
    {
      b := key in entries;
    }

    /** `get(key)`: the stored text, with no expiry check; a hit postpones
        the expiry by the default and records the access. */
    method Get(key: string, now: int) returns (r: Option<string>)
      requires Valid()
      modifies this`entries
      ensures Valid()
      ensures r == if key in old(entries) then Some(old(entries)[key].value) else None
      ensures Contents() == Touch(old(Contents()), key, now, defaultExpirySeconds)
    {
      if key !in entries {
        return None;
      }
      var entry := entries[key];
      entry := entry.(expires := CalculateExpiryTime(now, defaultExpirySeconds));
      entry := entry.(accessed := now);
      entries := entries[key := entry];
      r := Some(entry.value);
    }

    /** The eviction loop of the esm `set` over this map: it walks the map
        in insertion order, stops at the first expired entry, and otherwise
        tracks the least recently accessed one; the result is the index it
        deletes. */
    method FindVictim(now: int) returns (i: nat)
      requires Valid() && order != []
      ensures i == VictimAt(Contents(), now)
    {
      OrderInEntries(Contents());
      i := ScanVictim(order, entries, now);
      VictimOfScan(Contents(), now);
    }

    /** The eviction pass of the esm `set`: one entry is deleted, the one
        `FindVictim` picks. */
    method EvictOne(now: int)
      requires Valid() && order != []
      modifies this`order, this`entries
      ensures Valid()
      ensures Contents() == Del(old(Contents()), old(order)[VictimAt(old(Contents()), now)])
    {
      var i := FindVictim(now);
      DelWellFormed(Contents(), order[i]);
      DeleteEntry(order[i]);
    }

    /** `set(key, value, expirySeconds, notify)`. */
    method Set(key: string, value: Value, expirySeconds: Option<int>, now: int, notify: bool := true)
      requires Valid()
      modifies this`order, this`entries, this`outbox
      ensures Valid()
      ensures Contents() == SetSpec(old(Contents()), key, JsonStringify(value), Seconds(expirySeconds), maxEntries, now)
      ensures outbox == old(outbox) + (if notify then [Update(key, JsonStringify(value), Seconds(expirySeconds))] else [])
    {
      ghost var s := Contents();
      if maxEntries > 0 && |order| >= maxEntries && key !in entries {
        EvictOne(now);
      }
      var seconds := Seconds(expirySeconds);
      var json := JsonStringify(value);
      var entry := Entry(json, now, now, CalculateExpiryTime(now, seconds));
      PutWellFormed(Contents(), key, entry);
      SetEntry(key, entry);
      if notify {
        outbox := outbox + [Update(key, json, seconds)];
      }
    }

    /** `delete(key, notify)`. */
    method Delete(key: string, notify: bool := true)
      requires Valid()
      modifies this`order, this`entries, this`outbox
      ensures Valid()
      ensures Contents() == Del(old(Contents()), key) && key !in entries
      ensures outbox == old(outbox) + (if notify then [Event.Delete(key)] else [])
    {
      DelWellFormed(Contents(), key);
      DeleteEntry(key);
      if notify {
        outbox := outbox + [Event.Delete(key)];
      }
    }

    /** `cleanUp()` at `now`: the `forEach` deletes every expired entry it
        visits, reading the map as it goes. */
    method CleanUp(now: int)
      requires Valid()
      modifies this`order, this`entries
      ensures Valid()
      ensures Contents() == SweepKeys(old(Contents()), old(order), now)
    {
      ghost var s := Contents();
      var keys := order;
      var i := 0;
      while i < |keys|
        invariant 0 <= i <= |keys|
        invariant Contents() == SweepKeys(s, keys[..i], now)
      {
        var key := keys[i];
        SweepStep(s, i, now);
        if Reached(entries[key].expires, now) {
          DeleteEntry(key);
        }
        i := i + 1;
      }
      assert keys[..i] == keys;
      CleanUpExact(s, now);
    }

    /** `joinCache(data)`: every entry of `data` the local one does not
        outdate is stored; the result is the whole map afterwards. */
    method JoinCache(data: seq<(string, Entry)>) returns (snapshot: seq<(string, Entry)>)
      requires Valid()
      modifies this`order, this`entries
      ensures Valid()
      ensures Contents() == JoinAll(old(Contents()), data)
      ensures snapshot == Snapshot(Contents())
    {
      ghost var s := Contents();
      var i := 0;
      while i < |data|
        invariant 0 <= i <= |data|
        invariant Contents() == JoinAll(s, data[..i])
      {
        assert data[..i + 1][..i] == data[..i];
        var (key, e) := data[i];
        var added := if key in entries then entries[key].added else e.added;
        if added <= e.added {
          SetEntry(key, e);
        }
        i := i + 1;
      }
      assert data[..i] == data;
      JoinWellFormed(s, data);
      snapshot := Snapshot(Contents());
    }

    /** The delayed `cache:sync-request` of the constructor: the whole map. */
    method RequestSync()
      requires Valid()
      modifies this`outbox
      ensures outbox == old(outbox) + [SyncRequest(OnWire(Snapshot(Contents())))]
    {
      outbox := outbox + [SyncRequest(OnWire(Snapshot(Contents())))];
    }

    /** The `cache:sync-request` handler, reading `null` expiries as
        `Infinity`: join, then answer with the merged map. */
    method OnSyncRequest(data: seq<(string, WireEntry)>)
      requires Valid()
      modifies this`order, this`entries, this`outbox
      ensures Valid()
      ensures Contents() == JoinAll(old(Contents()), Received(data, false))
      ensures outbox == old(outbox) + [SyncResponse(OnWire(Snapshot(Contents())))]
    {
      var merged := JoinCache(Received(data, false));
      outbox := outbox + [SyncResponse(OnWire(merged))];
    }

    /** The `cache:sync-request` handler as written: entries that never
        expire arrive with `expires: null`. */
    method OnSyncRequestAsWritten(data: seq<(string, WireEntry)>)
      requires Valid()
      modifies this`order, this`entries, this`outbox
      ensures Valid()
      ensures Contents() == JoinAll(old(Contents()), Received(data, true))
      ensures outbox == old(outbox) + [SyncResponse(OnWire(Snapshot(Contents())))]
    {
      var merged := JoinCache(Received(data, true));
      outbox := outbox + [SyncResponse(OnWire(merged))];
    }

    /** The `cache:sync-response` handler. */
    method OnSyncResponse(data: seq<(string, WireEntry)>)
      requires Valid()
      modifies this`order, this`entries
      ensures Valid()
      ensures Contents() == JoinAll(old(Contents()), Received(data, false))
    {
      var _ := JoinCache(Received(data, false));
    }

    /** The `cache:sync-response` handler as written: entries that never
        expire arrive with `expires: null`. */
    method OnSyncResponseAsWritten(data: seq<(string, WireEntry)>)
      requires Valid()
      modifies this`order, this`entries
      ensures Valid()
      ensures Contents() == JoinAll(old(Contents()), Received(data, true))
    {
      var _ := JoinCache(Received(data, true));
    }

    /** The `cache:update` handler, storing the JSON text it receives. */
    method OnUpdate(key: string, value: string, expirySeconds: int, now: int)
      requires Valid()
      modifies this`order, this`entries, this`outbox
      ensures Valid()
      ensures Contents() == SetSpec(old(Contents()), key, value, expirySeconds, maxEntries, now)
      ensures entries[key].value == value
      ensures outbox == old(outbox)
    {
      Set(key, Json(value), Some(expirySeconds), now, false);
      SetStores(old(Contents()), key, value, expirySeconds, maxEntries, now);
    }

    /** The `cache:update` handler as written: the received text is
        stringified once more. */
    method OnUpdateAsWritten(key: string, value: string, expirySeconds: int, now: int)
      requires Valid()
      modifies this`order, this`entries, this`outbox
      ensures Valid()
      ensures Contents() == SetSpec(old(Contents()), key, JsonQuote(value), expirySeconds, maxEntries, now)
      ensures entries[key].value != value
      ensures outbox == old(outbox)
    {
      Set(key, Str(value), Some(expirySeconds), now, false);
      SetStores(old(Contents()), key, JsonQuote(value), expirySeconds, maxEntries, now);
      UpdateStoresQuotedText(value);
    }

    /** The `cache:delete` handler. */
    method OnDelete(key: string)
      requires Valid()
      modifies this`order, this`entries, this`outbox
      ensures Valid()
      ensures Contents() == Del(old(Contents()), key)
      ensures outbox == old(outbox)
    {
      Delete(key, false);
    }

    /** One call of the `memoize` wrapper for `name` with the arguments whose
        JSON text is `argsJson`; `result` is what `fn` would return. A cached
        text other than `null` is returned without calling `fn`; otherwise
        `fn` is called and its result stored (and broadcast). */
    method Memoize(name: string, argsJson: string, result: Value, expireInSeconds: Option<int>, now: int) returns (m: Memo)
      requires Valid()
      modifies this`order, this`entries, this`outbox
      ensures Valid()
      ensures var key := MemoKey(name, argsJson);
        var s := old(Contents());
        var t := Touch(s, key, now, defaultExpirySeconds);
        if key in s.entries && s.entries[key].value != NullText then
          && m == Cached(s.entries[key].value) && Contents() == t && outbox == old(outbox)
        else
          && m == Computed(result)
          && Contents() == SetSpec(t, key, JsonStringify(result), Seconds(expireInSeconds), maxEntries, now)
          && outbox == old(outbox) + [Update(key, JsonStringify(result), Seconds(expireInSeconds))]
    {
      var key := MemoKey(name, argsJson);
      var cached := Get(key, now);
      if cached.Some? && cached.value != NullText {
        return Cached(cached.value);
      }
      Set(key, result, expireInSeconds, now);
      m := Computed(result);
    }
  }
}
