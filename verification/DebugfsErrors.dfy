/**
 Which strings the attribute parser takes as numbers, in every base, and what it
 does at one it does not take.
 */
module DebugfsErrors {
  import opened DebugfsAttr

  /** The value of a string of digits. */
  function ValueOf(ds: string, base: nat): nat {
    if ds == "" then 0 else ValueOf(ds[..|ds| - 1], base) * base + DigitValue(ds[|ds| - 1])
  }

  predicate Digits(ds: string, base: nat) {
    forall i :: 0 <= i < |ds| ==> DigitValue(ds[i]) < base
  }

  lemma DigitValues()
    ensures forall c: char :: '0' <= c <= '9' ==> DigitValue(c) == c as int - 48
    ensures forall c: char :: 'a' <= c <= 'f' ==> DigitValue(c) == c as int - 87
    ensures forall c: char :: 'A' <= c <= 'F' ==> DigitValue(c) == c as int - 55
    ensures forall c: char :: DigitValue(c) < 16 <==> '0' <= c <= '9' || 'a' <= c <= 'f' || 'A' <= c <= 'F'
  {
  }

  /** t is what follows the sign of w, if it has one. */
  predicate Signed(w: string, plus: string, t: string) {
    w == plus + t && (plus == "+" || (plus == "" && (w == "" || w[0] != '+')))
  }

  /**
   t read as a number: "0x" and at least one hexadecimal digit, or octal digits from a
   leading zero on, or decimal digits; then whatever is no digit.
   */
  predicate Reading(t: string, prefix: string, base: nat, ds: string, rest: string) {
    && t == prefix + (ds + rest) && Digits(ds, base) && (rest == "" || DigitValue(rest[0]) >= base)
    && match base
       case 16 => (prefix == "0x" || prefix == "0X") && ds != ""
       case 8 => prefix == "" && ds != "" && ds[0] == '0' && !IsHex(t)
       case 10 => prefix == "" && (ds == "" || ds[0] != '0')
       case _ => false
  }

  lemma {:induction false} LeadingOf(ds: string, base: nat, rest: string)
    requires Digits(ds, base)
    ensures LeadingDigits(ds + rest, base, 0, 0) == LeadingDigits(rest, base, ValueOf(ds, base), |ds|)
    decreases |ds|
  {
    if ds == "" {
      assert ds + rest == rest;
    } else {
      var front, last := ds[..|ds| - 1], ds[|ds| - 1];
      LeadingOf(front, base, [last] + rest);
      assert ds + rest == front + ([last] + rest) && ([last] + rest)[1..] == rest;
    }
  }

  lemma SignDropped(w: string, plus: string, t: string)
    requires Signed(w, plus, t)
    ensures (if w != [] && w[0] == '+' then w[1..] else w) == t
  {
  }

  lemma HexReading(t: string, prefix: string, base: nat, ds: string, rest: string)
    requires Reading(t, prefix, base, ds, rest)
    ensures IsHex(t) <==> base == 16
    ensures (if IsHex(t) then t[2..] else t) == ds + rest
    ensures !IsHex(t) ==> base == if t != [] && t[0] == '0' then 8 else 10
  {
    if base == 16 {
      assert t[2..] == ds + rest && t[2] == ds[0] && t[0] == prefix[0] && t[1] == prefix[1];
    } else {
      assert t == ds + rest;
    }
  }

  lemma RestOf(ds: string, rest: string)
    ensures (ds + rest)[|ds|..] == rest
  {
  }

  lemma ConvertMeaning(ds: string, base: nat, rest: string)
    requires Digits(ds, base) && (rest == "" || DigitValue(rest[0]) >= base)
    ensures Convert(ds + rest, base) ==
      if ds == "" then (-22, 0)
      else if ValueOf(ds, base) >= 0x1_0000_0000_0000_0000 then (-34, 0)
      else if rest == "" || rest == "\n" then (0, ValueOf(ds, base))
      else (-22, 0)
  {
    LeadingOf(ds, base, rest);
    RestOf(ds, rest);
  }

  /** What kstrtoul makes of a string is decided by its reading. */
  lemma KstrtoulMeaning(w: string, plus: string, t: string, prefix: string, base: nat, ds: string, rest: string)
    requires Signed(w, plus, t) && Reading(t, prefix, base, ds, rest)
    ensures Kstrtoul(w) ==
      if ds == "" then (-22, 0)
      else if ValueOf(ds, base) >= 0x1_0000_0000_0000_0000 then (-34, 0)
      else if rest == "" || rest == "\n" then (0, ValueOf(ds, base))
      else (-22, 0)
  {
    SignDropped(w, plus, t);
    HexReading(t, prefix, base, ds, rest);
    ConvertMeaning(ds, base, rest);
  }

  function DigitRun(s: string, base: nat): (n: nat)
    ensures n <= |s| && Digits(s[..n], base) && (n == |s| || DigitValue(s[n]) >= base)
  {
    if s == "" || DigitValue(s[0]) >= base then 0
    else
      var n := 1 + DigitRun(s[1..], base);
      assert s[..n] == [s[0]] + s[1..][..n - 1];
      n
  }

  /** Every string has one. */
  lemma EveryReading(w: string)
    returns (plus: string, t: string, prefix: string, base: nat, ds: string, rest: string)
    ensures Signed(w, plus, t) && Reading(t, prefix, base, ds, rest)
  {
    plus := if w != "" && w[0] == '+' then "+" else "";
    t := w[|plus|..];
    prefix, base, ds, rest := UnsignedReading(t);
  }

  lemma UnsignedReading(t: string) returns (prefix: string, base: nat, ds: string, rest: string)
    ensures Reading(t, prefix, base, ds, rest)
  {
    if IsHex(t) {
      prefix, base := t[..2], 16;
      assert t == prefix + t[2..] && t[2..][0] == t[2];
    } else {
      prefix, base := "", if t != "" && t[0] == '0' then 8 else 10;
      assert t == prefix + t[0..];
    }
    var u := t[|prefix|..];
    var n := DigitRun(u, base);
    ds, rest := u[..n], u[n..];
    assert u == ds + rest;
  }

  /** vals printed with gaps[i] extra spaces before element i and a space after each. */
  function Leading(vals: seq<Size>, gaps: seq<nat>): string
    requires |gaps| == |vals|
  {
    if vals == [] then "" else Spaces(gaps[0]) + Dec(vals[0]) + (" " + Leading(vals[1..], gaps[1..]))
  }

  /** After numbers that fit, the parser goes on with what follows them; r is what it makes of that. */
  lemma {:induction false} ParseLeading(vals: seq<Size>, gaps: seq<nat>, more: string, index: nat, nelems: nat,
                                        r: (int, seq<(nat, nat)>))
    requires |gaps| == |vals| && index + |vals| <= nelems && r == Parse(more, index + |vals|, nelems)
    ensures Parse(Leading(vals, gaps) + more, index, nelems) == (r.0, Assign(vals, index) + r.1)
    decreases |vals|
  {
    if vals == [] {
      NothingLeading(more, r.1);
    } else {
      ParseLeading(vals[1..], gaps[1..], more, index + 1, nelems, r);
      ParseFirst(vals, gaps, more, index, nelems, (r.0, Assign(vals[1..], index + 1) + r.1));
      AssignOn(vals, index, r.1);
    }
  }

  lemma NothingLeading(more: string, sets: seq<(nat, nat)>)
    ensures "" + more == more && [] + sets == sets
  {
  }

  lemma ParseFirst(vals: seq<Size>, gaps: seq<nat>, more: string, index: nat, nelems: nat, r: (int, seq<(nat, nat)>))
    requires |gaps| == |vals| && vals != [] && index < nelems
    requires r == Parse(Leading(vals[1..], gaps[1..]) + more, index + 1, nelems)
    ensures Parse(Leading(vals, gaps) + more, index, nelems) == (r.0, [(index, vals[0])] + r.1)
  {
    var rest := " " + (Leading(vals[1..], gaps[1..]) + more);
    ParseNumber(gaps[0], vals[0], rest, index, nelems);
    assert rest[1..] == Leading(vals[1..], gaps[1..]) + more;
    LeadingFirst(vals, gaps, more);
  }

  lemma LeadingFirst(vals: seq<Size>, gaps: seq<nat>, more: string)
    requires |gaps| == |vals| && vals != []
    ensures Leading(vals, gaps) + more ==
      Spaces(gaps[0]) + Dec(vals[0]) + (" " + (Leading(vals[1..], gaps[1..]) + more))
  {
  }

  lemma AssignOn(vals: seq<Size>, index: nat, more: seq<(nat, nat)>)
    requires vals != []
    ensures Assign(vals, index) + more == [(index, vals[0])] + (Assign(vals[1..], index + 1) + more)
  {
  }

  lemma {:induction false} WordSpan(w: string, rest: string)
    requires forall i :: 0 <= i < |w| ==> w[i] != ' ' && w[i] != '\n'
    requires rest == "" || rest[0] == ' ' || rest[0] == '\n'
    ensures Span(w + rest) == |w|
  {
    if w == "" {
      assert w + rest == rest;
    } else {
      WordSpan(w[1..], rest);
      assert (w + rest)[1..] == w[1..] + rest;
    }
  }

  /** What is converted at the word w when rest follows it: w alone only before a space. */
  function Converted(w: string, rest: string): string {
    if rest != "" && rest[0] == ' ' then w else w + rest
  }

  lemma ParseFails(gap: nat, w: string, rest: string, index: nat, nelems: nat)
    requires w != "" && forall i :: 0 <= i < |w| ==> w[i] != ' ' && w[i] != '\n'
    requires (rest == "" || rest[0] == ' ' || rest[0] == '\n') && index < nelems
    requires Kstrtoul(Converted(w, rest)).0 != 0
    ensures Parse(Spaces(gap) + (w + rest), index, nelems) == (Kstrtoul(Converted(w, rest)).0, [])
  {
    DropSpacesOf(gap, w + rest);
    WordSpan(w, rest);
    assert (w + rest)[..|w|] == w && (w + rest)[|w|..] == rest;
  }

  /**
   An element that is no number ends the parse with its error, -22 for a malformed and -34
   for a large one, and exactly the elements before it are set. A malformed word has no
   digits to start with or something behind them that is not the final newline.
   */
  lemma ErrorStops(vals: seq<Size>, gaps: seq<nat>, gap: nat, w: string, rest: string, nelems: nat, plus: string,
                   t: string, prefix: string, base: nat, ds: string, junk: string)
    requires |gaps| == |vals| < nelems
    requires w != "" && forall i :: 0 <= i < |w| ==> w[i] != ' ' && w[i] != '\n'
    requires rest == "" || rest[0] == ' ' || rest[0] == '\n'
    requires Signed(Converted(w, rest), plus, t) && Reading(t, prefix, base, ds, junk)
    requires ds == "" || ValueOf(ds, base) >= 0x1_0000_0000_0000_0000 || (junk != "" && junk != "\n")
    ensures Parse(Leading(vals, gaps) + (Spaces(gap) + (w + rest)), 0, nelems) ==
      (if ds != "" && ValueOf(ds, base) >= 0x1_0000_0000_0000_0000 then -34 else -22, Assign(vals, 0))
  {
    KstrtoulMeaning(Converted(w, rest), plus, t, prefix, base, ds, junk);
    ParseFails(gap, w, rest, |vals|, nelems);
    ParseLeading(vals, gaps, Spaces(gap) + (w + rest), 0, nelems, (Kstrtoul(Converted(w, rest)).0, []));
    assert Assign(vals, 0) + [] == Assign(vals, 0);
  }

  /** Any other word is taken, whatever its base: the element is set to its value and the parse goes on behind it. */
  lemma NumberGoesOn(gap: nat, w: string, rest: string, index: nat, nelems: nat, plus: string, t: string,
                     prefix: string, base: nat, ds: string)
    requires w != "" && forall i :: 0 <= i < |w| ==> w[i] != ' ' && w[i] != '\n'
    requires rest != "" && rest[0] == ' ' && index < nelems
    requires Signed(w, plus, t) && Reading(t, prefix, base, ds, "") && ds != ""
    requires ValueOf(ds, base) < 0x1_0000_0000_0000_0000
    ensures var after := Parse(rest[1..], index + 1, nelems);
            Parse(Spaces(gap) + (w + rest), index, nelems) == (after.0, [(index, ValueOf(ds, base))] + after.1)
  {
    KstrtoulMeaning(w, plus, t, prefix, base, ds, "");
    ParseTakes(gap, w, rest, index, nelems, ValueOf(ds, base));
  }

  lemma ParseTakes(gap: nat, w: string, rest: string, index: nat, nelems: nat, v: nat)
    requires w != "" && forall i :: 0 <= i < |w| ==> w[i] != ' ' && w[i] != '\n'
    requires rest != "" && rest[0] == ' ' && index < nelems && Kstrtoul(w) == (0, v)
    ensures var after := Parse(rest[1..], index + 1, nelems);
            Parse(Spaces(gap) + (w + rest), index, nelems) == (after.0, [(index, v)] + after.1)
  {
    DropSpacesOf(gap, w + rest);
    WordSpan(w, rest);
    assert (w + rest)[..|w|] == w && (w + rest)[|w| + 1..] == rest[1..];
  }
}
