/**
 * `parse_merits`: the merit values BI, BII and HP written as
 * `NAME (12.34)` somewhere in a free-text merit string. Each is found with a
 * regular-expression search for `NAME\s+\((\d+\.\d+)\)`, modelled here by
 * hand: none of the pattern's repetitions can give back characters to the
 * part after it, so matching at a position is deterministic.
 */
module Merits {
  import opened Wrappers
  import opened Text
  import opened Numbers

  /** The merit kinds the string is searched for. */
  const MeritNames: set<string> := {"BI", "BII", "HP"}

  /** The number of consecutive digits of `s` from position `i`. */
  function DigitRun(s: string, i: nat): (n: nat)
    requires i <= |s|
    ensures i + n <= |s|
    ensures i + n < |s| ==> !IsDigit(s[i + n])
    decreases |s| - i
  {
    if i < |s| && IsDigit(s[i]) then 1 + DigitRun(s, i + 1) else 0
  }

  /** Every character of the run is a digit. */
  lemma {:induction false} DigitRunDigits(s: string, i: nat)
    requires i <= |s|
    ensures AllDigits(s[i..i + DigitRun(s, i)])
    decreases |s| - i
  {
    if i < |s| && IsDigit(s[i]) {
      DigitRunDigits(s, i + 1);
      var n := DigitRun(s, i);
      assert s[i..i + n] == [s[i]] + s[i + 1..i + n];
    }
  }

  /** The number of consecutive whitespace characters of `s` from position `i`. */
  function SpaceRun(s: string, i: nat): (n: nat)
    requires i <= |s|
    ensures i + n <= |s|
    ensures i + n < |s| ==> s[i + n] !in Whitespace
    decreases |s| - i
  {
    if i < |s| && s[i] in Whitespace then 1 + SpaceRun(s, i + 1) else 0
  }

  /** Every character of the run is whitespace. */
  lemma {:induction false} SpaceRunSpaces(s: string, i: nat)
    requires i <= |s|
    ensures forall k :: i <= k < i + SpaceRun(s, i) ==> s[k] in Whitespace
    decreases |s| - i
  {
    if i < |s| && s[i] in Whitespace {
      SpaceRunSpaces(s, i + 1);
    }
  }

  /** The digits of the captured number, before and after its point. */
  datatype Number = Number(whole: string, fraction: string)

  /** The value `float` gives the captured `whole.fraction`. */
  function Value(n: Number): real
    requires AllDigits(n.whole) && AllDigits(n.fraction)
  {
    DecimalValue(n.whole, n.fraction)
  }

  /** `name` is written at position `i`. */
  predicate NameAt(s: string, i: nat, name: string)
  {
    i + |name| <= |s| && s[i..i + |name|] == name
  }

  /** `\d+` at position `i` followed by `stop`: the digits, if there is at least one and `stop` follows them. */
  function DigitsBefore(s: string, i: nat, stop: char): (r: Option<string>)
    requires i <= |s|
    ensures r.Some? ==> r.value != [] && AllDigits(r.value) && i + |r.value| < |s| && s[i + |r.value|] == stop
  {
    var d := DigitRun(s, i);
    if d == 0 || i + d == |s| || s[i + d] != stop then None
    else
      DigitRunDigits(s, i);
      Some(s[i..i + d])
  }

  /** Digits written at `i` and followed by a non-digit `stop` are found. */
  lemma DigitsBeforeOf(s: string, i: nat, digits: string, stop: char)
    requires digits != [] && AllDigits(digits) && !IsDigit(stop)
    requires i + |digits| < |s| && s[i..i + |digits|] == digits && s[i + |digits|] == stop
    ensures DigitsBefore(s, i, stop) == Some(digits)
  {
    DigitRunOf(s, i, |digits|);
  }

  /** The number the rest of the pattern, `\s+\((\d+\.\d+)\)`, captures at position `j`, if it matches there. */
  function NumberAt(s: string, j: nat): (r: Option<Number>)
    requires j <= |s|
    ensures r.Some? ==>
      && r.value.whole != [] && AllDigits(r.value.whole)
      && r.value.fraction != [] && AllDigits(r.value.fraction)
  {
    var k := j + SpaceRun(s, j);
    if k == j || k == |s| || s[k] != '(' then None
    else
      match DigitsBefore(s, k + 1, '.')
      case None => None
      case Some(whole) =>
        match DigitsBefore(s, k + 2 + |whole|, ')')
        case None => None
        case Some(fraction) => Some(Number(whole, fraction))
  }

  /** The number the pattern for `name` captures when matched at position `i`, if it matches there. */
  function MatchAt(s: string, i: nat, name: string): (r: Option<Number>)
    ensures r.Some? ==> NameAt(s, i, name)
    ensures r.Some? ==>
      && r.value.whole != [] && AllDigits(r.value.whole)
      && r.value.fraction != [] && AllDigits(r.value.fraction)
  {
    if NameAt(s, i, name) then NumberAt(s, i + |name|) else None
  }

  /** `re.search`: the leftmost position from `from` on where the pattern for `name` matches. */
  function FirstMatch(s: string, name: string, from: nat): (r: Option<nat>)
    ensures r.Some? ==> from <= r.value <= |s| && MatchAt(s, r.value, name).Some?
    decreases |s| + 1 - from
  {
    if |s| < from then None
    else if MatchAt(s, from, name).Some? then Some(from)
    else FirstMatch(s, name, from + 1)
  }

  /** The search fails exactly when no position matches, and otherwise finds the leftmost one. */
  lemma {:induction false} FirstMatchSpec(s: string, name: string, from: nat)
    ensures FirstMatch(s, name, from).None? <==> forall i :: from <= i ==> MatchAt(s, i, name).None?
    ensures FirstMatch(s, name, from).Some? ==>
      forall i :: from <= i < FirstMatch(s, name, from).value ==> MatchAt(s, i, name).None?
    decreases |s| + 1 - from
  {
    if |s| < from {
      forall i | from <= i
        ensures MatchAt(s, i, name).None?
      {
        assert |s| < i + |name|;
      }
    } else if MatchAt(s, from, name).None? {
      FirstMatchSpec(s, name, from + 1);
      var r := FirstMatch(s, name, from);
      assert r == FirstMatch(s, name, from + 1);
      if r.Some? {
        forall i | from <= i < r.value
          ensures MatchAt(s, i, name).None?
        {
          if i != from {
            assert from + 1 <= i < FirstMatch(s, name, from + 1).value;
          }
        }
      }
    } else {
      assert FirstMatch(s, name, from) == Some(from);
    }
  }

  /** The value of `name` in the merit string: the number its leftmost match captures. */
  function MeritValue(s: string, name: string): Option<real>
  {
    match FirstMatch(s, name, 0)
    case None => None
    case Some(i) => Some(Value(MatchAt(s, i, name).value))
  }

  /** `parse_merits`: each merit kind found in the string, with its value. */
  function ParseMerits(s: string): (r: map<string, real>)
    ensures r.Keys <= MeritNames
    ensures forall name :: name in MeritNames ==> (name in r <==> MeritValue(s, name).Some?)
    ensures forall name :: name in r ==> MeritValue(s, name) == Some(r[name])
  {
    map name | name in MeritNames && MeritValue(s, name).Some? :: MeritValue(s, name).value
  }

  /** The captured text is a plain decimal that `float` reads as `Value`. */
  lemma CapturedNumberParses(s: string, i: nat, name: string)
    requires MatchAt(s, i, name).Some?
    ensures var n := MatchAt(s, i, name).value;
      ParseDecimal(n.whole + "." + n.fraction) == Some(Value(n))
  {
    var n := MatchAt(s, i, name).value;
    ParseUnsignedDecimal(n.whole, n.fraction);
  }

  /** The pattern for `name` matches at `i` and nowhere before it. */
  predicate LeftmostMatch(s: string, i: nat, name: string)
  {
    MatchAt(s, i, name).Some? && forall j :: 0 <= j < i ==> MatchAt(s, j, name).None?
  }

  /**
   * A kind is in the result exactly when the string contains its pattern
   * somewhere, and its value is the one of the leftmost occurrence.
   */
  lemma ParseMeritsSpec(s: string, name: string)
    requires name in MeritNames
    ensures name in ParseMerits(s) <==> exists i :: MatchAt(s, i, name).Some?
    ensures forall i :: LeftmostMatch(s, i, name) ==>
      name in ParseMerits(s) && ParseMerits(s)[name] == Value(MatchAt(s, i, name).value)
  {
    FirstMatchSpec(s, name, 0);
    forall i | LeftmostMatch(s, i, name)
      ensures name in ParseMerits(s) && ParseMerits(s)[name] == Value(MatchAt(s, i, name).value)
    {
      var k := FirstMatch(s, name, 0).value;
      assert !(k < i) && !(i < k);
    }
  }

  /**
   * The text from `j` is `width` whitespace characters, `(`, the digits of
   * `n.whole`, `.`, the digits of `n.fraction` and `)`: what
   * `\s+\((\d+\.\d+)\)` consumes when it captures `n`.
   */
  predicate Shaped(s: string, j: nat, width: nat, n: Number)
  {
    var p := j + width;
    var q := p + 1 + |n.whole|;
    var e := q + 1 + |n.fraction|;
    && e < |s| && width >= 1
    && SpacesAt(s, j, p)
    && s[p] == '(' && s[p + 1..q] == n.whole && s[q] == '.'
    && s[q + 1..e] == n.fraction && s[e] == ')'
  }

  /** Every character of `s` from `j` up to `p` is whitespace. */
  predicate SpacesAt(s: string, j: nat, p: nat)
  {
    p <= |s| && forall m :: j <= m < p ==> s[m] in Whitespace
  }

  /** A match at `i` consumes the name followed by the shape of the number it captures. */
  lemma MatchAtSound(s: string, i: nat, name: string)
    requires MatchAt(s, i, name).Some?
    ensures NameAt(s, i, name)
    ensures Shaped(s, i + |name|, SpaceRun(s, i + |name|), MatchAt(s, i, name).value)
  {
    SpaceRunSpaces(s, i + |name|);
  }

  /** The rest of the pattern captures exactly a number written in its shape. */
  lemma NumberAtShape(s: string, j: nat, width: nat, n: Number)
    requires n.whole != [] && AllDigits(n.whole) && n.fraction != [] && AllDigits(n.fraction)
    requires Shaped(s, j, width, n)
    ensures NumberAt(s, j) == Some(n)
  {
    ShapedSpaces(s, j, width, n);
    ShapedWhole(s, j, width, n);
    ShapedFraction(s, j, width, n);
    NumberAtOf(s, j, width, n);
  }

  /** The whitespace run of a shaped number is `width` long. */
  lemma ShapedSpaces(s: string, j: nat, width: nat, n: Number)
    requires Shaped(s, j, width, n)
    ensures SpaceRun(s, j) == width
  {
    SpaceRunOf(s, j, width);
  }

  /** The digits before the point of a shaped number are its whole part. */
  lemma ShapedWhole(s: string, j: nat, width: nat, n: Number)
    requires n.whole != [] && AllDigits(n.whole)
    requires Shaped(s, j, width, n)
    ensures j + width + 1 <= |s| && DigitsBefore(s, j + width + 1, '.') == Some(n.whole)
  {
    DigitsBeforeOf(s, j + width + 1, n.whole, '.');
  }

  /** The digits after the point of a shaped number are its fraction. */
  lemma ShapedFraction(s: string, j: nat, width: nat, n: Number)
    requires n.fraction != [] && AllDigits(n.fraction)
    requires Shaped(s, j, width, n)
    ensures j + width + 2 + |n.whole| <= |s| && DigitsBefore(s, j + width + 2 + |n.whole|, ')') == Some(n.fraction)
  {
    DigitsBeforeOf(s, j + width + 2 + |n.whole|, n.fraction, ')');
  }

  /** `NumberAt` read off its parts: the whitespace run, the parenthesis and the two digit runs. */
  lemma NumberAtOf(s: string, j: nat, width: nat, n: Number)
    requires width != 0 && j + width < |s| && SpaceRun(s, j) == width && s[j + width] == '('
    requires DigitsBefore(s, j + width + 1, '.') == Some(n.whole)
    requires DigitsBefore(s, j + width + 2 + |n.whole|, ')') == Some(n.fraction)
    ensures NumberAt(s, j) == Some(n)
  {
  }

  /**
   * The pattern matched on `NAME`, any non-empty run of whitespace and
   * `(whole.fraction)`, followed by anything, captures exactly that number.
   */
  lemma MatchRendered(name: string, space: string, n: Number, rest: string)
    requires space != [] && forall c :: c in space ==> c in Whitespace
    requires n.whole != [] && AllDigits(n.whole) && n.fraction != [] && AllDigits(n.fraction)
    ensures MatchAt(name + space + "(" + n.whole + "." + n.fraction + ")" + rest, 0, name) == Some(n)
  {
    var s := name + space + "(" + n.whole + "." + n.fraction + ")" + rest;
    RenderedLayout(name, space, n, rest);
    NumberAtShape(s, |name|, |space|, n);
  }

  /** Where the name, the whitespace and the parts of the number sit in a rendered merit. */
  lemma RenderedLayout(name: string, space: string, n: Number, rest: string)
    requires space != [] && forall c :: c in space ==> c in Whitespace
    ensures var s := name + space + "(" + n.whole + "." + n.fraction + ")" + rest;
      NameAt(s, 0, name) && Shaped(s, |name|, |space|, n)
  {
    var s := name + space + "(" + n.whole + "." + n.fraction + ")" + rest;
    var j, p := |name|, |name| + |space|;
    var q := p + 1 + |n.whole|;
    var e := q + 1 + |n.fraction|;
    assert s == name + (space + ("(" + (n.whole + ("." + (n.fraction + (")" + rest))))));
    assert s[0..j] == name;
    forall m | j <= m < p
      ensures s[m] in Whitespace
    {
      assert s[m] == space[m - j];
    }
    assert s[p] == '(' && s[p + 1..q] == n.whole && s[q] == '.';
    assert s[q + 1..e] == n.fraction && s[e] == ')';
  }

  /** A whitespace run ends at the first other character. */
  lemma {:induction false} SpaceRunOf(s: string, i: nat, n: nat)
    requires i + n < |s| && s[i + n] !in Whitespace
    requires forall m :: i <= m < i + n ==> s[m] in Whitespace
    ensures SpaceRun(s, i) == n
    decreases n
  {
    if n > 0 {
      SpaceRunOf(s, i + 1, n - 1);
    }
  }

  /** A digit run ends at the first non-digit. */
  lemma {:induction false} DigitRunOf(s: string, i: nat, n: nat)
    requires i + n < |s| && AllDigits(s[i..i + n]) && !IsDigit(s[i + n])
    ensures DigitRun(s, i) == n
    decreases n
  {
    if n > 0 {
      assert s[i + 1..i + n] == s[i..i + n][1..];
      DigitRunOf(s, i + 1, n - 1);
      assert IsDigit(s[i..i + n][0]);
    }
  }

  /** `BI` never matches where `BII` is written: the second `I` is not whitespace. */
  lemma BiNotInsideBii(s: string, i: nat)
    requires i + 3 <= |s| && s[i..i + 3] == "BII"
    ensures MatchAt(s, i, "BI") == None
  {
    assert s[i + 2] == 'I';
    assert SpaceRun(s, i + 2) == 0;
  }
}
