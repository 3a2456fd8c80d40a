/**
 * The small part of the JavaScript runtime that the forbidden-value rule
 * relies on: dynamically typed values, thrown errors, and the two string
 * built-ins `String.prototype.toLowerCase` and `String.prototype.includes`.
 *
 * Case folding is modelled as a per-character ASCII fold ('A'..'Z' to
 * 'a'..'z', every other character unchanged).
 */
module JsRuntime {

  datatype Option<+T> = None | Some(value: T)

  /** A JavaScript value as far as the validators can tell values apart.
      `Other` is any non-string value (number, boolean, array, object) that
      has no `toLowerCase` method; `length` is its `.length` property when
      that is a number (arrays), and `None` when reading it gives
      `undefined` (numbers, booleans, plain objects). */
  datatype JsVal = Null | Undefined | Str(s: string) | Other(length: Option<int>)

  /** The only exception the modelled code can raise. */
  datatype JsError = TypeError

  /** How the evaluation of an expression ends: with a value, or by throwing. */
  datatype Completion<+T> = Normal(value: T) | Thrown(error: JsError)

  /** `v.length` on a value that is not `null` or `undefined`. */
  function Length(v: JsVal): (n: Option<int>)
    requires !v.Null? && !v.Undefined?
    ensures v.Str? ==> n == Some(|v.s|)
  {
    match v
    case Str(s) => Some(|s|)
    case Other(len) => len
  }

  // ---------------------------------------------------------------------
  // toLowerCase / toUpperCase

  predicate IsAsciiUpper(c: char) { 'A' <= c <= 'Z' }

  predicate IsAsciiLower(c: char) { 'a' <= c <= 'z' }

  function LowerChar(c: char): (d: char)
    ensures IsAsciiUpper(c) ==> IsAsciiLower(d) && d as int == c as int + 32
    ensures !IsAsciiUpper(c) ==> d == c
  {
    if IsAsciiUpper(c) then (c as int + 32) as char else c
  }

  function UpperChar(c: char): (d: char)
    ensures IsAsciiLower(c) ==> IsAsciiUpper(d) && d as int == c as int - 32
    ensures !IsAsciiLower(c) ==> d == c
  {
    if IsAsciiLower(c) then (c as int - 32) as char else c
  }

  /** `s.toLowerCase()`: same length, every character folded. */
  function Lower(s: string): (r: string)
    ensures |r| == |s|
    ensures forall i :: 0 <= i < |s| ==> r[i] == LowerChar(s[i])
  {
    seq(|s|, i requires 0 <= i < |s| => LowerChar(s[i]))
  }

  /** `s.toUpperCase()`: same length, every character folded. */
  function Upper(s: string): (r: string)
    ensures |r| == |s|
    ensures forall i :: 0 <= i < |s| ==> r[i] == UpperChar(s[i])
  {
    seq(|s|, i requires 0 <= i < |s| => UpperChar(s[i]))
  }

  /** Folding to lower case a second time changes nothing. */
  lemma LowerIdempotent(s: string)
    ensures Lower(Lower(s)) == Lower(s)
  {
  }

  /** Upper-casing first does not change the lower-cased form. */
  lemma LowerOfUpper(s: string)
    ensures Lower(Upper(s)) == Lower(s)
  {
  }

  /** Folding commutes with concatenation. */
  lemma LowerConcat(a: string, b: string)
    ensures Lower(a + b) == Lower(a) + Lower(b)
  {
  }

  /** Folding commutes with taking a slice. */
  lemma LowerSlice(s: string, lo: int, hi: int)
    requires 0 <= lo <= hi <= |s|
    ensures Lower(s[lo..hi]) == Lower(s)[lo..hi]
  {
  }

  // ---------------------------------------------------------------------
  // includes

  /** `needle` sits in `hay` starting at index `i`. */
  predicate OccursAt(hay: string, needle: string, i: int)
  {
    0 <= i && i + |needle| <= |hay| && hay[i..i + |needle|] == needle
  }

  /** The reference meaning of substring containment. */
  ghost predicate Contains(hay: string, needle: string)
  {
    exists i :: OccursAt(hay, needle, i)
  }

  /** `hay.includes(needle)`: tries every start position from the left. */
  function Includes(hay: string, needle: string): bool
    decreases |hay|
  {
    if |needle| > |hay| then false
    else if hay[..|needle|] == needle then true
    else Includes(hay[1..], needle)
  }

  /** The search finds `needle` exactly when it occurs somewhere in `hay`. */
  lemma {:induction false} IncludesIsContains(hay: string, needle: string)
    ensures Includes(hay, needle) <==> Contains(hay, needle)
    decreases |hay|
  {
    if |needle| > |hay| {
      assert !Contains(hay, needle);
    } else if hay[..|needle|] == needle {
      assert OccursAt(hay, needle, 0);
    } else {
      var tail := hay[1..];
      IncludesIsContains(tail, needle);
      if Contains(tail, needle) {
        var j :| OccursAt(tail, needle, j);
        assert hay[j + 1..j + 1 + |needle|] == tail[j..j + |needle|];
        assert OccursAt(hay, needle, j + 1);
      }
      if Contains(hay, needle) {
        var i :| OccursAt(hay, needle, i);
        assert i != 0;
        assert tail[i - 1..i - 1 + |needle|] == hay[i..i + |needle|];
        assert OccursAt(tail, needle, i - 1);
      }
    }
  }

  /** The empty string occurs in every string. */
  lemma ContainsEmpty(hay: string)
    ensures Contains(hay, "")
  {
    assert OccursAt(hay, "", 0);
  }

  /** Only the empty string occurs in the empty string. */
  lemma ContainsInEmpty(needle: string)
    ensures Contains("", needle) <==> needle == ""
  {
    if needle == "" { ContainsEmpty(""); }
  }

  /** Every string occurs in itself. */
  lemma ContainsSelf(s: string)
    ensures Contains(s, s)
  {
    assert OccursAt(s, s, 0);
  }

  /** An occurrence survives any prefix or suffix added around the string. */
  lemma ContainsExtend(hay: string, needle: string, prefix: string, suffix: string)
    requires Contains(hay, needle)
    ensures Contains(prefix + hay + suffix, needle)
  {
    var i :| OccursAt(hay, needle, i);
    var big := prefix + hay + suffix;
    assert big[|prefix| + i..|prefix| + i + |needle|] == hay[i..i + |needle|];
    assert OccursAt(big, needle, |prefix| + i);
  }

  /** A needle whose first character is absent from `hay` does not occur in it. */
  lemma NotContainsWithoutFirstChar(hay: string, needle: string)
    requires |needle| > 0 && needle[0] !in hay
    ensures !Contains(hay, needle)
  {
  }

  /** An exact occurrence is also an occurrence once both sides are folded. */
  lemma ContainsLowered(hay: string, needle: string)
    requires Contains(hay, needle)
    ensures Contains(Lower(hay), Lower(needle))
  {
    var i :| OccursAt(hay, needle, i);
    LowerSlice(hay, i, i + |needle|);
    assert OccursAt(Lower(hay), Lower(needle), i);
  }
}
