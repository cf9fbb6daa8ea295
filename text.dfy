/**
 * The few Python `str` operations the report readers use: `split(sep)`,
 * `split()`, `strip(chars)`, `rstrip()` and slicing with clamped bounds.
 *
 * The functions carry only quantifier-free contracts; what they guarantee
 * about every character or field is stated by the lemmas beside them, so
 * that callers pay for those facts only where they need them.
 */
module Text {
  import opened Wrappers

  /** The characters `str.strip()` and `str.split()` treat as whitespace (ASCII and Latin-1 ones). */
  const Whitespace: set<char> :=
    {' ', '\t', '\n', '\r', '\U{b}', '\U{c}', '\U{1c}', '\U{1d}', '\U{1e}', '\U{1f}', '\U{85}', '\U{a0}'}

  /** The position of the first `c` in `s`, or `|s|` when `s` has none. */
  function IndexOf(s: string, c: char): (i: nat)
    ensures i <= |s|
    ensures i < |s| ==> s[i] == c
  {
    if s == [] then 0
    else if s[0] == c then 0
    else 1 + IndexOf(s[1..], c)
  }

  /** No `c` comes before the position `IndexOf` reports. */
  lemma {:induction false} IndexOfFirst(s: string, c: char)
    ensures forall j :: 0 <= j < IndexOf(s, c) ==> s[j] != c
  {
    if s != [] && s[0] != c {
      IndexOfFirst(s[1..], c);
    }
  }

  /** `IndexOf` finds the only position that holds `c` with none before it. */
  lemma IndexOfAt(s: string, c: char, k: nat)
    requires k <= |s|
    requires k < |s| ==> s[k] == c
    requires forall j :: 0 <= j < k ==> s[j] != c
    ensures IndexOf(s, c) == k
  {
    IndexOfFirst(s, c);
  }

  /** `sep.join(fields)` */
  function Join(fields: seq<string>, sep: char): string
  {
    if |fields| == 0 then ""
    else if |fields| == 1 then fields[0]
    else fields[0] + [sep] + Join(fields[1..], sep)
  }

  /** `s.split(sep)` for a one-character separator: the text between consecutive separators. */
  function Split(s: string, sep: char): (fields: seq<string>)
    ensures |fields| >= 1
    decreases |s|
  {
    var i := IndexOf(s, sep);
    if i == |s| then [s] else [s[..i]] + Split(s[i + 1..], sep)
  }

  /** The fields hold no separator, and joining them gives back the text. */
  lemma {:induction false} SplitFields(s: string, sep: char)
    ensures forall i :: 0 <= i < |Split(s, sep)| ==> sep !in Split(s, sep)[i]
    ensures Join(Split(s, sep), sep) == s
    decreases |s|
  {
    var i := IndexOf(s, sep);
    IndexOfFirst(s, sep);
    if i < |s| {
      SplitFields(s[i + 1..], sep);
      assert s == s[..i] + [sep] + s[i + 1..];
    }
  }

  /** Splitting undoes joining, so `Split` and `Join` are inverse on separator-free fields. */
  lemma {:induction false} SplitJoin(fields: seq<string>, sep: char)
    requires |fields| >= 1
    requires forall i :: 0 <= i < |fields| ==> sep !in fields[i]
    ensures Split(Join(fields, sep), sep) == fields
    decreases |fields|
  {
    if |fields| == 1 {
      IndexOfAt(fields[0], sep, |fields[0]|);
    } else {
      var s := Join(fields, sep);
      var tail := Join(fields[1..], sep);
      assert s == fields[0] + [sep] + tail;
      IndexOfAt(s, sep, |fields[0]|);
      assert s[..|fields[0]|] == fields[0];
      assert s[|fields[0]| + 1..] == tail;
      SplitJoin(fields[1..], sep);
      assert fields == [fields[0]] + fields[1..];
    }
  }

  /** `s.lstrip(chars)` */
  function TrimLeft(s: string, cs: set<char>): (r: string)
    ensures |r| <= |s|
  {
    if s != [] && s[0] in cs then TrimLeft(s[1..], cs) else s
  }

  /** `lstrip` removes a prefix made of `cs` characters and stops at the first other one. */
  lemma {:induction false} TrimLeftSpec(s: string, cs: set<char>)
    ensures TrimLeft(s, cs) == s[|s| - |TrimLeft(s, cs)|..]
    ensures TrimLeft(s, cs) != [] ==> TrimLeft(s, cs)[0] !in cs
    ensures forall i :: 0 <= i < |s| - |TrimLeft(s, cs)| ==> s[i] in cs
  {
    if s != [] && s[0] in cs {
      TrimLeftSpec(s[1..], cs);
    }
  }

  /** `s.rstrip(chars)` */
  function TrimRight(s: string, cs: set<char>): (r: string)
    ensures |r| <= |s|
  {
    if s != [] && s[|s| - 1] in cs then TrimRight(s[..|s| - 1], cs) else s
  }

  /** `rstrip` removes a suffix made of `cs` characters and stops at the last other one. */
  lemma {:induction false} TrimRightSpec(s: string, cs: set<char>)
    ensures TrimRight(s, cs) == s[..|TrimRight(s, cs)|]
    ensures TrimRight(s, cs) != [] ==> TrimRight(s, cs)[|TrimRight(s, cs)| - 1] !in cs
    ensures forall i :: |TrimRight(s, cs)| <= i < |s| ==> s[i] in cs
  {
    if s != [] && s[|s| - 1] in cs {
      TrimRightSpec(s[..|s| - 1], cs);
    }
  }

  /** `s.strip(chars)` */
  function Strip(s: string, cs: set<char>): (r: string)
    ensures |r| <= |s|
  {
    TrimRight(TrimLeft(s, cs), cs)
  }

  /** `strip` keeps the middle of `s` and removes only `cs` characters from both ends, all of them. */
  lemma StripSpec(s: string, cs: set<char>)
    ensures var r, a := Strip(s, cs), |s| - |TrimLeft(s, cs)|;
      && a + |r| <= |s| && r == s[a..a + |r|]
      && (r != [] ==> r[0] !in cs && r[|r| - 1] !in cs)
      && (forall i :: 0 <= i < a ==> s[i] in cs)
      && (forall i :: a + |r| <= i < |s| ==> s[i] in cs)
  {
    var t := TrimLeft(s, cs);
    TrimLeftSpec(s, cs);
    TrimRightSpec(t, cs);
  }

  /** `s.strip('"')`, as applied to every quoted field of the export files. */
  function StripQuotes(s: string): string
  {
    Strip(s, {'"'})
  }

  /** The length of the longest prefix of `s` that has no character of `cs`. */
  function SpanWithout(s: string, cs: set<char>): (n: nat)
    ensures n <= |s|
    ensures n < |s| ==> s[n] in cs
  {
    if s == [] || s[0] in cs then 0 else 1 + SpanWithout(s[1..], cs)
  }

  lemma {:induction false} SpanWithoutSpec(s: string, cs: set<char>)
    ensures forall i :: 0 <= i < SpanWithout(s, cs) ==> s[i] !in cs
  {
    if s != [] && s[0] !in cs {
      SpanWithoutSpec(s[1..], cs);
    }
  }

  /**
   * `s.split()[0]`: the first maximal run of non-whitespace characters,
   * or None where Python raises IndexError because `s` holds no word.
   */
  function FirstWord(s: string): (w: Option<string>)
    ensures w.Some? ==> w.value != [] && Whitespace !! set c | c in w.value
  {
    var t := TrimLeft(s, Whitespace);
    TrimLeftSpec(s, Whitespace);
    SpanWithoutSpec(t, Whitespace);
    if t == [] then None else Some(t[..SpanWithout(t, Whitespace)])
  }

  /**
   * There is a first word exactly when `s` has a non-whitespace character.
   * The word is the first maximal run of non-whitespace: it starts where the
   * leading whitespace ends, holds no whitespace, and is followed by
   * whitespace or the end of `s`.
   */
  lemma FirstWordSpec(s: string)
    ensures FirstWord(s).None? <==> forall i :: 0 <= i < |s| ==> s[i] in Whitespace
    ensures FirstWord(s).Some? ==>
      var w, a := FirstWord(s).value, |s| - |TrimLeft(s, Whitespace)|;
      && w != [] && a + |w| <= |s| && s[a..a + |w|] == w
      && (forall i :: 0 <= i < a ==> s[i] in Whitespace)
      && (forall i :: 0 <= i < |w| ==> w[i] !in Whitespace)
      && (a + |w| < |s| ==> s[a + |w|] in Whitespace)
  {
    var t := TrimLeft(s, Whitespace);
    TrimLeftSpec(s, Whitespace);
    SpanWithoutSpec(t, Whitespace);
    if t != [] {
      var a, n := |s| - |t|, SpanWithout(t, Whitespace);
      assert s[|s| - |t|] == t[0];
      assert s[a..a + n] == t[..n];
      if a + n < |s| {
        assert s[a + n] == t[n];
      }
    }
  }

  /** `s[lo:hi]` for non-negative bounds: Python clamps both bounds to the length. */
  function Slice(s: string, lo: nat, hi: nat): (r: string)
    ensures lo <= hi <= |s| ==> r == s[lo..hi]
    ensures |r| <= |s|
  {
    var a := if lo <= |s| then lo else |s|;
    var b := if hi <= |s| then hi else |s|;
    if a <= b then s[a..b] else ""
  }

  /** `s[:len(p)] == p`, the prefix test behind the course filters, holds exactly when `p` is a prefix of `s`. */
  lemma SliceEqualsPrefix(s: string, p: string)
    ensures Slice(s, 0, |p|) == p <==> p <= s
  {
  }
}
