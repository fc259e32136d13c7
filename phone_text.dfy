/**
 * The phone-number text engine shared by both services and both PhoneNumber
 * entities: canonicalising a raw number to its digits, deriving the display
 * mask, and filling a mask's placeholders back with stored digits.
 *
 * Java's `\d` (without the UNICODE_CHARACTER_CLASS flag) matches the ASCII
 * digits 0-9 only, and `\D` is its complement; `String.replace("X", "")`
 * removes every upper-case X.
 */
module PhoneText {
  import opened Wrappers

  /** The placeholder a mask holds where the raw number had a digit. */
  const Placeholder: char := 'X'

  predicate IsDigit(c: char) {
    '0' <= c <= '9'
  }

  predicate AllDigits(s: string) {
    forall i :: 0 <= i < |s| ==> IsDigit(s[i])
  }

  predicate NoDigits(s: string) {
    forall i :: 0 <= i < |s| ==> !IsDigit(s[i])
  }

  // ---------------------------------------------------------------------
  // Canonicalising: number.replaceAll("\\D", "")
  // ---------------------------------------------------------------------

  /** The digits of `s`, in their original order. */
  function Canonical(s: string): (r: string)
    ensures AllDigits(r)
    ensures |r| <= |s|
  {
    if s == [] then []
    else (if IsDigit(s[0]) then [s[0]] else []) + Canonical(s[1..])
  }

  lemma {:induction false} CanonicalAppend(a: string, b: string)
    ensures Canonical(a + b) == Canonical(a) + Canonical(b)
  {
    if a == [] {
      assert a + b == b;
    } else {
      assert (a + b)[1..] == a[1..] + b;
      CanonicalAppend(a[1..], b);
    }
  }

  /** A string made of digits only is its own canonical form. */
  lemma {:induction false} CanonicalOfDigits(s: string)
    requires AllDigits(s)
    ensures Canonical(s) == s
  {
    if s != [] {
      CanonicalOfDigits(s[1..]);
      assert [s[0]] + s[1..] == s;
    }
  }

  /** The canonical form is a fixed point exactly when the input holds digits only. */
  lemma CanonicalFixedPoint(s: string)
    ensures Canonical(s) == s <==> AllDigits(s)
  {
    if AllDigits(s) {
      CanonicalOfDigits(s);
    }
  }

  /** Canonicalising twice changes nothing. */
  lemma CanonicalIdempotent(s: string)
    ensures Canonical(Canonical(s)) == Canonical(s)
  {
    CanonicalOfDigits(Canonical(s));
  }

  /** The canonical form is empty exactly when the input has no digit at all. */
  lemma {:induction false} CanonicalEmpty(s: string)
    ensures Canonical(s) == [] <==> NoDigits(s)
  {
    if s != [] {
      CanonicalEmpty(s[1..]);
      if IsDigit(s[0]) {
        assert Canonical(s)[0] == s[0];
      } else {
        assert forall i :: 1 <= i < |s| ==> s[i] == s[1..][i - 1];
      }
    }
  }

  // ---------------------------------------------------------------------
  // Deriving the mask: number.replace("X", "").replaceAll("\\d", "X")
  // ---------------------------------------------------------------------

  /** `s.replace("X", "")`: every literal placeholder removed. */
  function StripX(s: string): (r: string)
    ensures Placeholder !in r
    ensures |r| <= |s|
  {
    if s == [] then []
    else (if s[0] == Placeholder then [] else [s[0]]) + StripX(s[1..])
  }

  /** `s.replaceAll("\\d", "X")`: every digit turned into a placeholder, the rest kept in place. */
  function MaskDigits(s: string): (r: string)
    ensures |r| == |s| && NoDigits(r)
    ensures forall i :: 0 <= i < |s| && IsDigit(s[i]) ==> r[i] == Placeholder
    ensures forall i :: 0 <= i < |s| && !IsDigit(s[i]) ==> r[i] == s[i]
  {
    seq(|s|, i requires 0 <= i < |s| => if IsDigit(s[i]) then Placeholder else s[i])
  }

  /** The mask stored for a raw number. */
  function DeriveMask(raw: string): string {
    MaskDigits(StripX(raw))
  }

  /** The characters of `s` that are neither digits nor placeholders, in order. */
  function Punctuation(s: string): string {
    if s == [] then []
    else (if IsDigit(s[0]) || s[0] == Placeholder then [] else [s[0]]) + Punctuation(s[1..])
  }

  /** The number of placeholders in `s`. */
  function CountX(s: string): nat {
    if s == [] then 0
    else (if s[0] == Placeholder then 1 else 0) + CountX(s[1..])
  }

  lemma {:induction false} CountXAppend(a: string, b: string)
    ensures CountX(a + b) == CountX(a) + CountX(b)
  {
    if a == [] {
      assert a + b == b;
    } else {
      assert (a + b)[1..] == a[1..] + b;
      CountXAppend(a[1..], b);
    }
  }

  /** The Java guard `mask.length() - mask.replace("X", "").length()` counts the placeholders. */
  lemma {:induction false} StripXLength(s: string)
    ensures |StripX(s)| == |s| - CountX(s)
  {
    if s != [] {
      StripXLength(s[1..]);
    }
  }

  /** One more character of prefix adds one placeholder exactly when that character is one. */
  lemma CountXStep(s: string, i: int)
    requires 0 <= i < |s|
    ensures CountX(s[..i + 1]) == CountX(s[..i]) + (if s[i] == Placeholder then 1 else 0)
    ensures CountX(s[..i + 1]) <= CountX(s)
  {
    assert s[..i + 1] == s[..i] + [s[i]];
    CountXAppend(s[..i], [s[i]]);
    assert s == s[..i + 1] + s[i + 1..];
    CountXAppend(s[..i + 1], s[i + 1..]);
  }

  /** Peeling one raw character off peels at most one mask character. */
  lemma DeriveMaskCons(raw: string)
    requires raw != []
    ensures DeriveMask(raw) ==
      (if raw[0] == Placeholder then []
       else [if IsDigit(raw[0]) then Placeholder else raw[0]]) + DeriveMask(raw[1..])
  {
    var head := if raw[0] == Placeholder then [] else [raw[0]];
    var tail := StripX(raw[1..]);
    assert StripX(raw) == head + tail;
    MaskDigitsAppend(head, tail);
  }

  lemma MaskDigitsAppend(a: string, b: string)
    ensures MaskDigits(a + b) == MaskDigits(a) + MaskDigits(b)
  {
    var l, r := MaskDigits(a + b), MaskDigits(a) + MaskDigits(b);
    assert |l| == |r|;
    forall i | 0 <= i < |l| ensures l[i] == r[i] {
      if i < |a| {
        assert (a + b)[i] == a[i];
      } else {
        assert (a + b)[i] == b[i - |a|];
      }
    }
  }

  /**
   * The derived mask holds no digit; its placeholders are as many as the
   * canonical digits; its other characters are the raw number's punctuation,
   * in order.
   */
  lemma {:induction false} DeriveMaskShape(raw: string)
    ensures NoDigits(DeriveMask(raw))
    ensures CountX(DeriveMask(raw)) == |Canonical(raw)|
    ensures StripX(DeriveMask(raw)) == Punctuation(raw)
  {
    if raw != [] {
      DeriveMaskShape(raw[1..]);
      DeriveMaskCons(raw);
      var head := if raw[0] == Placeholder then []
                  else [if IsDigit(raw[0]) then Placeholder else raw[0]];
      assert DeriveMask(raw) == head + DeriveMask(raw[1..]);
      CountXAppend(head, DeriveMask(raw[1..]));
      StripXAppend(head, DeriveMask(raw[1..]));
    }
  }

  lemma {:induction false} StripXAppend(a: string, b: string)
    ensures StripX(a + b) == StripX(a) + StripX(b)
  {
    if a == [] {
      assert a + b == b;
    } else {
      var head := if a[0] == Placeholder then [] else [a[0]];
      assert (a + b)[0] == a[0] && (a + b)[1..] == a[1..] + b;
      assert StripX(a + b) == head + StripX(a[1..] + b);
      StripXAppend(a[1..], b);
      assert StripX(a) == head + StripX(a[1..]);
    }
  }

  /** A string with no placeholder is left alone by `replace("X", "")`. */
  lemma {:induction false} StripXNoPlaceholder(s: string)
    requires Placeholder !in s
    ensures StripX(s) == s
  {
    if s != [] {
      assert Placeholder !in s[1..] by {
        forall i | 0 <= i < |s[1..]| ensures s[1..][i] != Placeholder {
          assert s[1..][i] == s[i + 1];
        }
      }
      StripXNoPlaceholder(s[1..]);
      assert [s[0]] + s[1..] == s;
    }
  }

  // ---------------------------------------------------------------------
  // Formatting: getNumber / getPhoneNumber
  // ---------------------------------------------------------------------

  /** The mask with its placeholders replaced, left to right, by the characters of `number`. */
  function Substitute(mask: string, number: string): string
    requires CountX(mask) == |number|
  {
    if mask == [] then []
    else if mask[0] == Placeholder then [number[0]] + Substitute(mask[1..], number[1..])
    else [mask[0]] + Substitute(mask[1..], number)
  }

  /** What the formatter puts at position `i` of the mask. */
  function Slot(mask: string, number: string, i: int): char
    requires 0 <= i < |mask| && CountX(mask) == |number|
  {
    if mask[i] == Placeholder then
      CountXStep(mask, i);
      number[CountX(mask[..i])]
    else mask[i]
  }

  /**
   * The display string of a stored number: the number itself when there is
   * no mask or when the mask's placeholder count differs from the number's
   * length, and the filled mask otherwise.
   */
  function Format(number: string, mask: Option<string>): string {
    match mask
    case None => number
    case Some(m) =>
      StripXLength(m);
      if |m| - |StripX(m)| != |number| then number
      else Substitute(m, number)
  }

  /** The characters of `r` at the placeholder positions of `mask`, in order. */
  function AtPlaceholders(mask: string, r: string): string
    requires |mask| == |r|
  {
    if mask == [] then []
    else (if mask[0] == Placeholder then [r[0]] else []) + AtPlaceholders(mask[1..], r[1..])
  }

  /** Each output position holds what Slot says: the j-th placeholder gets number[j]. */
  lemma {:induction false} SubstituteAt(mask: string, number: string, i: int)
    requires CountX(mask) == |number| && 0 <= i < |mask|
    ensures |Substitute(mask, number)| == |mask|
    ensures Substitute(mask, number)[i] == Slot(mask, number, i)
  {
    SubstituteLength(mask, number);
    if i > 0 {
      var rest := if mask[0] == Placeholder then number[1..] else number;
      var head := if mask[0] == Placeholder then [number[0]] else [mask[0]];
      assert Substitute(mask, number) == head + Substitute(mask[1..], rest);
      SubstituteAt(mask[1..], rest, i - 1);
      assert Substitute(mask, number)[i] == Substitute(mask[1..], rest)[i - 1];
      assert mask[..i] == [mask[0]] + mask[1..][..i - 1];
      CountXAppend([mask[0]], mask[1..][..i - 1]);
      assert [mask[0]][1..] == [];
      assert CountX([mask[0]]) == if mask[0] == Placeholder then 1 else 0;
      assert mask[1..][i - 1] == mask[i];
      if mask[i] == Placeholder {
        CountXStep(mask, i);
        CountXStep(mask[1..], i - 1);
        var j := CountX(mask[1..][..i - 1]);
        assert Slot(mask[1..], rest, i - 1) == rest[j];
        assert Slot(mask, number, i) == number[CountX(mask[..i])];
      }
    }
  }

  lemma {:induction false} SubstituteLength(mask: string, number: string)
    requires CountX(mask) == |number|
    ensures |Substitute(mask, number)| == |mask|
  {
    if mask != [] {
      SubstituteLength(mask[1..], if mask[0] == Placeholder then number[1..] else number);
    }
  }

  /**
   * The filled mask keeps the mask's length, keeps every non-placeholder
   * character where it was, and its placeholder positions read back exactly
   * the stored number: every stored character is used once, in order.
   */
  lemma {:induction false} SubstituteFills(mask: string, number: string)
    requires CountX(mask) == |number|
    ensures |Substitute(mask, number)| == |mask|
    ensures forall i :: 0 <= i < |mask| && mask[i] != Placeholder ==> Substitute(mask, number)[i] == mask[i]
    ensures AtPlaceholders(mask, Substitute(mask, number)) == number
  {
    SubstituteLength(mask, number);
    forall i | 0 <= i < |mask| && mask[i] != Placeholder
      ensures Substitute(mask, number)[i] == mask[i]
    {
      SubstituteAt(mask, number, i);
    }
    if mask != [] {
      var rest := if mask[0] == Placeholder then number[1..] else number;
      SubstituteFills(mask[1..], rest);
      if mask[0] == Placeholder {
        assert [number[0]] + number[1..] == number;
      }
    }
  }

  /**
   * getNumber's three cases: no mask and a mask whose placeholder count does
   * not match both give the stored number back; otherwise the result has
   * the mask's length and each position is the mask character or, for the
   * j-th placeholder, the j-th stored character.
   */
  lemma FormatCases(number: string, mask: Option<string>)
    ensures mask.None? ==> Format(number, mask) == number
    ensures mask.Some? && CountX(mask.value) != |number| ==> Format(number, mask) == number
    ensures mask.Some? && CountX(mask.value) == |number| ==>
      |Format(number, mask)| == |mask.value| &&
      forall i :: 0 <= i < |mask.value| ==> Format(number, mask)[i] == Slot(mask.value, number, i)
  {
    if mask.Some? {
      StripXLength(mask.value);
      if CountX(mask.value) == |number| {
        SubstituteLength(mask.value, number);
        forall i | 0 <= i < |mask.value|
          ensures Format(number, mask)[i] == Slot(mask.value, number, i)
        {
          SubstituteAt(mask.value, number, i);
        }
      }
    }
  }

  lemma {:induction false} SubstituteDerived(raw: string)
    ensures CountX(DeriveMask(raw)) == |Canonical(raw)|
    ensures Substitute(DeriveMask(raw), Canonical(raw)) == StripX(raw)
  {
    DeriveMaskShape(raw);
    if raw != [] {
      SubstituteDerived(raw[1..]);
      DeriveMaskCons(raw);
      var m, c := DeriveMask(raw[1..]), Canonical(raw[1..]);
      if raw[0] == Placeholder {
        assert DeriveMask(raw) == m && Canonical(raw) == c;
      } else if IsDigit(raw[0]) {
        assert DeriveMask(raw) == [Placeholder] + m && Canonical(raw) == [raw[0]] + c;
        assert ([Placeholder] + m)[1..] == m && ([raw[0]] + c)[1..] == c;
      } else {
        assert DeriveMask(raw) == [raw[0]] + m && Canonical(raw) == c;
        assert ([raw[0]] + m)[1..] == m;
      }
    }
  }

  /**
   * Round trip: formatting the canonical digits of a raw number with the
   * mask derived from it gives back the raw number without its literal
   * placeholders.
   */
  lemma RoundTrip(raw: string)
    ensures Format(Canonical(raw), Some(DeriveMask(raw))) == StripX(raw)
  {
    SubstituteDerived(raw);
    StripXLength(DeriveMask(raw));
  }

  /** The number the tests of both applications post and read back. */
  lemma RoundTripExample(raw: string)
    requires raw == "+09(876)543-21-00"
    ensures Format(Canonical(raw), Some(DeriveMask(raw))) == raw
  {
    RoundTrip(raw);
    StripXNoPlaceholder(raw);
  }

  lemma {:induction false} CanonicalOfSubstitute(mask: string, number: string)
    requires CountX(mask) == |number| && NoDigits(mask) && AllDigits(number)
    ensures Canonical(Substitute(mask, number)) == number
  {
    if mask != [] {
      var rest := if mask[0] == Placeholder then number[1..] else number;
      assert NoDigits(mask[1..]) by {
        forall i | 0 <= i < |mask[1..]| ensures !IsDigit(mask[1..][i]) {
          assert mask[1..][i] == mask[i + 1];
        }
      }
      CanonicalOfSubstitute(mask[1..], rest);
      var head := if mask[0] == Placeholder then [number[0]] else [mask[0]];
      CanonicalAppend(head, Substitute(mask[1..], rest));
      if mask[0] == Placeholder {
        assert [number[0]] + number[1..] == number;
      }
    }
  }

  /**
   * Canonicalising what the formatter displays gives back the stored digits,
   * whenever the mask itself holds no digit.
   */
  lemma FormatCanonical(number: string, mask: Option<string>)
    requires AllDigits(number)
    requires mask.Some? ==> NoDigits(mask.value)
    ensures Canonical(Format(number, mask)) == number
  {
    CanonicalOfDigits(number);
    if mask.Some? {
      StripXLength(mask.value);
      if CountX(mask.value) == |number| {
        CanonicalOfSubstitute(mask.value, number);
      }
    }
  }

  /**
   * The char-array loop of getNumber / getPhoneNumber: copy the mask, then
   * overwrite each placeholder with the next stored character.
   */
  method FillMask(mask: string, number: string) returns (s: string)
    requires CountX(mask) == |number|
    ensures s == Substitute(mask, number)
  {
    var maskArray := new char[|mask|](i requires 0 <= i < |mask| => mask[i]);
    var j := 0;
    for i := 0 to |mask|
      invariant j == CountX(mask[..i])
      invariant forall k :: 0 <= k < i ==> maskArray[k] == Slot(mask, number, k)
      invariant forall k :: i <= k < |mask| ==> maskArray[k] == mask[k]
    {
      CountXStep(mask, i);
      if maskArray[i] == Placeholder {
        maskArray[i] := number[j];
        j := j + 1;
      }
    }
    s := maskArray[..];
    SubstituteLength(mask, number);
    forall k | 0 <= k < |mask| ensures s[k] == Substitute(mask, number)[k] {
      SubstituteAt(mask, number, k);
    }
  }

  // ---------------------------------------------------------------------
  // Matching: the LIKE parameter built by the contact search
  // ---------------------------------------------------------------------

  /** The LIKE wildcard for any run of characters. */
  const AnyRun: char := '%'

  /** The LIKE wildcard for exactly one character. */
  const AnyOne: char := '_'

  /**
   * The parameter of the search query: the canonical digits in whole-number
   * mode, `'%' + digits + '%'` otherwise.
   */
  function QueryPattern(number: string, wholeNumber: bool): string {
    var numbersOnly := Canonical(number);
    if wholeNumber then numbersOnly else [AnyRun] + numbersOnly + [AnyRun]
  }

  /**
   * SQL `stored LIKE pattern`: `%` matches any run of characters, `_` any one
   * character, every other character itself. No escape character is modelled;
   * the patterns the services build hold digits and `%` only.
   */
  predicate Like(stored: string, pattern: string)
    decreases |stored| + |pattern|
  {
    if pattern == [] then stored == []
    else if pattern[0] == AnyRun then
      Like(stored, pattern[1..]) || (stored != [] && Like(stored[1..], pattern))
    else
      stored != [] && (pattern[0] == AnyOne || stored[0] == pattern[0]) && Like(stored[1..], pattern[1..])
  }

  /** `q` occurs in `s` starting at index `k`. */
  predicate OccursAt(s: string, q: string, k: int) {
    0 <= k && k + |q| <= |s| && s[k..k + |q|] == q
  }

  /** `s` holds `q` as a contiguous run. */
  predicate Contains(s: string, q: string) {
    exists k | 0 <= k <= |s| - |q| :: OccursAt(s, q, k)
  }

  lemma AllDigitsTail(q: string)
    requires q != [] && AllDigits(q)
    ensures AllDigits(q[1..]) && q[0] != AnyRun && q[0] != AnyOne
  {
    forall i | 0 <= i < |q[1..]| ensures IsDigit(q[1..][i]) {
      assert q[1..][i] == q[i + 1];
    }
  }

  /** A lone `%` matches every string. */
  lemma {:induction false} LikeAnyRun(s: string)
    ensures Like(s, [AnyRun])
  {
    if s != [] {
      LikeAnyRun(s[1..]);
    }
  }

  /** A pattern of digits only (no wildcard) matches exactly itself. */
  lemma {:induction false} LikeLiteral(s: string, q: string)
    requires AllDigits(q)
    ensures Like(s, q) <==> s == q
  {
    if q != [] && s != [] {
      AllDigitsTail(q);
      LikeLiteral(s[1..], q[1..]);
      assert s == [s[0]] + s[1..] && q == [q[0]] + q[1..];
    }
  }

  /** Digits followed by `%` match exactly the strings those digits begin. */
  lemma {:induction false} LikePrefix(s: string, q: string)
    requires AllDigits(q)
    ensures Like(s, q + [AnyRun]) <==> |q| <= |s| && s[..|q|] == q
  {
    if q == [] {
      assert q + [AnyRun] == [AnyRun];
      LikeAnyRun(s);
    } else {
      AllDigitsTail(q);
      assert (q + [AnyRun])[0] == q[0] && (q + [AnyRun])[1..] == q[1..] + [AnyRun];
      if s != [] {
        LikePrefix(s[1..], q[1..]);
        if |q| <= |s| {
          assert s[..|q|] == [s[0]] + s[1..][..|q| - 1];
          assert q == [q[0]] + q[1..];
        }
      }
    }
  }

  /** A leading `%` lets the rest of the pattern match any suffix of the string. */
  lemma {:induction false} LikeLeading(s: string, p: string)
    ensures Like(s, [AnyRun] + p) <==> exists k | 0 <= k <= |s| :: Like(s[k..], p)
  {
    var wp := [AnyRun] + p;
    assert wp[0] == AnyRun && wp[1..] == p;
    assert s[0..] == s;
    if s != [] {
      LikeLeading(s[1..], p);
      if Like(s[1..], wp) {
        var k :| 0 <= k <= |s[1..]| && Like(s[1..][k..], p);
        assert s[1..][k..] == s[k + 1..];
      }
      if !Like(s, p) && exists k | 0 <= k <= |s| :: Like(s[k..], p) {
        var k :| 0 <= k <= |s| && Like(s[k..], p);
        assert k != 0;
        assert s[1..][k - 1..] == s[k..];
      }
    }
  }

  /** Digits wrapped in `%` match exactly the strings that contain them. */
  lemma LikeContains(s: string, q: string)
    requires AllDigits(q)
    ensures Like(s, [AnyRun] + q + [AnyRun]) <==> Contains(s, q)
  {
    assert [AnyRun] + q + [AnyRun] == [AnyRun] + (q + [AnyRun]);
    LikeLeading(s, q + [AnyRun]);
    forall k | 0 <= k <= |s|
      ensures Like(s[k..], q + [AnyRun]) <==> OccursAt(s, q, k)
    {
      LikePrefix(s[k..], q);
      if k + |q| <= |s| {
        assert s[k..][..|q|] == s[k..k + |q|];
      }
    }
  }

  /**
   * What the search parameter matches: in whole-number mode exactly the
   * stored number equal to the query's digits, otherwise exactly the stored
   * numbers containing them.
   */
  lemma SearchPatternMatches(stored: string, number: string, wholeNumber: bool)
    ensures wholeNumber ==> (Like(stored, QueryPattern(number, wholeNumber)) <==> stored == Canonical(number))
    ensures !wholeNumber ==> (Like(stored, QueryPattern(number, wholeNumber)) <==> Contains(stored, Canonical(number)))
  {
    if wholeNumber {
      LikeLiteral(stored, Canonical(number));
    } else {
      LikeContains(stored, Canonical(number));
    }
  }

  /** A number found by a whole-number search is also found by the partial search. */
  lemma ExactImpliesPartial(stored: string, number: string)
    requires Like(stored, QueryPattern(number, true))
    ensures Like(stored, QueryPattern(number, false))
  {
    SearchPatternMatches(stored, number, true);
    SearchPatternMatches(stored, number, false);
    assert OccursAt(stored, Canonical(number), 0);
  }

  /** A query without digits becomes '%%', which every stored number matches. */
  lemma EmptyPartialMatchesAll(stored: string, number: string)
    requires NoDigits(number)
    ensures QueryPattern(number, false) == [AnyRun, AnyRun]
    ensures Like(stored, QueryPattern(number, false))
  {
    CanonicalEmpty(number);
    SearchPatternMatches(stored, number, false);
    assert OccursAt(stored, [], 0);
  }

  /** A stored 5551234567 is found by a partial search for 1234 but not by a whole-number one. */
  lemma SubstringSearchExample()
    ensures Like("5551234567", QueryPattern("1234", false))
    ensures !Like("5551234567", QueryPattern("1234", true))
  {
    CanonicalOfDigits("1234");
    SearchPatternMatches("5551234567", "1234", false);
    SearchPatternMatches("5551234567", "1234", true);
    assert OccursAt("5551234567", "1234", 3);
  }
}
