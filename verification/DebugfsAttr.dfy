/**
 Printing an array of sizes into a buffer and setting one from a string
 (mali_kbase_debugfs_helper.c), with the kernel's scnprintf and kstrtoul.
 */
module DebugfsAttr {
  const EINVAL: int := 22
  const ERANGE: int := 34
  const ULONG_LIMIT: nat := 0x1_0000_0000_0000_0000

  type Size = x: nat | x < ULONG_LIMIT

  /** "%zu" */
  function Dec(v: nat): (s: string)
    ensures s != [] && forall i :: 0 <= i < |s| ==> '0' <= s[i] <= '9'
  {
    if v < 10 then [Digit(v)] else Dec(v / 10) + [Digit(v % 10)]
  }

  function Digit(d: nat): (c: char)
    requires d < 10
    ensures '0' <= c <= '9'
  {
    '0' + d as char
  }

  /** Value of a digit in bases up to 16; 99 for any other character. */
  function DigitValue(c: char): nat {
    if '0' <= c <= '9' then (c - '0') as nat
    else if 'a' <= c <= 'f' then (c - 'a') as nat + 10
    else if 'A' <= c <= 'F' then (c - 'A') as nat + 10
    else 99
  }

  /** _parse_integer: the value of the leading digits of s, and their number. */
  function LeadingDigits(s: string, base: nat, value: nat, count: nat): (nat, nat)
    decreases |s|
  {
    if s == [] || DigitValue(s[0]) >= base then (value, count)
    else LeadingDigits(s[1..], base, value * base + DigitValue(s[0]), count + 1)
  }

  predicate IsHex(s: string) {
    |s| > 2 && s[0] == '0' && (s[1] == 'x' || s[1] == 'X') && DigitValue(s[2]) < 16
  }

  /** kstrtoul(s, 0, &value): a negative error or 0, and the value. */
  function Kstrtoul(s: string): (int, nat) {
    var t := if s != [] && s[0] == '+' then s[1..] else s;
    var base := if IsHex(t) then 16 else if t != [] && t[0] == '0' then 8 else 10;
    Convert(if IsHex(t) then t[2..] else t, base)
  }

  /** The digits of u in the given base, and what may follow them. */
  function Convert(u: string, base: nat): (int, nat) {
    var (value, count) := LeadingDigits(u, base, 0, 0);
    var rest := if count <= |u| then u[count..] else [];
    if count == 0 then (-EINVAL, 0)
    else if value >= ULONG_LIMIT then (-ERANGE, 0)
    else if rest == [] || rest == "\n" then (0, value)
    else (-EINVAL, 0)
  }

  /** strcspn(s, "\n "). */
  function Span(s: string): (n: nat)
    ensures n <= |s| && (n < |s| ==> s[n] == '\n' || s[n] == ' ')
    ensures forall i :: 0 <= i < n ==> s[i] != '\n' && s[i] != ' '
  {
    if s == [] || s[0] == '\n' || s[0] == ' ' then 0 else 1 + Span(s[1..])
  }

  function DropSpaces(s: string): (t: string)
    ensures |t| <= |s| && (t != [] ==> t[0] != ' ')
  {
    if s != [] && s[0] == ' ' then DropSpaces(s[1..]) else s
  }

  /** What parsing text for elements index and up returns, and the calls to set_attr_fn it makes. */
  function Parse(text: string, index: nat, nelems: nat): (int, seq<(nat, nat)>)
    decreases |text|
  {
    var s := DropSpaces(text);
    var len := Span(s);
    if index >= nelems || text == [] || len == 0 then (0, [])
    else
      var cut := len < |s| && s[len] == ' ';
      var (err, value) := Kstrtoul(if cut then s[..len] else s);
      if err != 0 then (err, [])
      else
        var (err', sets) := Parse(s[if cut then len + 1 else len..], index + 1, nelems);
        (err', [(index, value)] + sets)
  }

  /** buf holds text from position p on, and its terminator. */
  ghost predicate Holds(buf: seq<char>, text: string, p: nat) {
    && p <= |text| < |buf| && buf[|text|] == '\0'
    && forall j :: p <= j < |text| ==> buf[j] == text[j] && text[j] != '\0'
  }

  class Attributes {
    /** The calls to set_attr_fn. */
    var sets: seq<(nat, nat)>

    constructor ()
      ensures sets == []
    {
      sets := [];
    }

    method Set(index: nat, value: nat)
      modifies this
      ensures sets == old(sets) + [(index, value)]
    {
      sets := sets + [(index, value)];
    }
  }

  /** The string that starts at p. */
  method CString(buf: array<char>, p: nat, ghost end: nat) returns (s: string)
    requires p <= end < buf.Length && buf[end] == '\0' && forall j :: p <= j < end ==> buf[j] != '\0'
    ensures s == buf[p..end]
  {
    var q := p;
    s := [];
    while buf[q] != '\0'
      invariant p <= q <= end && s == buf[p..q]
      decreases end - q
    {
      s := s + [buf[q]];
      q := q + 1;
    }
  }

  method SkipSpaces(buf: array<char>, p: nat, ghost text: string) returns (q: nat)
    requires Holds(buf[..], text, p)
    ensures p <= q <= |text| && text[q..] == DropSpaces(text[p..])
  {
    q := p;
    while buf[q] == ' '
      invariant p <= q <= |text| && DropSpaces(text[q..]) == DropSpaces(text[p..])
      decreases |text| - q
    {
      assert text[q..][1..] == text[q + 1..];
      q := q + 1;
    }
  }

  method Strcspn(buf: array<char>, p: nat, ghost text: string) returns (len: nat)
    requires Holds(buf[..], text, p)
    ensures len == Span(text[p..])
  {
    len := 0;
    while buf[p + len] != '\0' && buf[p + len] != '\n' && buf[p + len] != ' '
      invariant p + len <= |text| && len + Span(text[p + len..]) == Span(text[p..])
      decreases |text| - len
    {
      assert text[p + len..][1..] == text[p + (len + 1)..];
      len := len + 1;
    }
  }

  /** The next element of text: whether there is one, its conversion, and the text after it. */
  ghost predicate Element(text: string, more: bool, err: int, value: nat, rest: string) {
    var s := DropSpaces(text);
    var len := Span(s);
    var cut := len < |s| && s[len] == ' ';
    && (more <==> len != 0)
    && (more ==> (err, value) == Kstrtoul(if cut then s[..len] else s))
    && (more ==> rest == s[if cut then len + 1 else len..])
  }

  /** Put a terminator over the space after the number at q, if there is one, and read the string. */
  method CutNumber(buf: array<char>, q: nat, len: nat, ghost text: string) returns (number: string, p': nat)
    requires Holds(buf[..], text, q) && q + len <= |text|
    modifies buf
    ensures Holds(buf[..], text, p')
    ensures var cut := q + len < |text| && text[q + len] == ' ';
            number == text[q..if cut then q + len else |text|] && p' == if cut then q + len + 1 else q + len
  {
    p' := q + len;
    ghost var end := |text|;
    if buf[p'] == ' ' {
      buf[p'] := '\0';
      end := p';
      p' := p' + 1;
    }
    number := CString(buf, q, end);
  }

  /** One element: skip spaces, cut the number off in place, convert it. */
  method ParseElement(buf: array<char>, p: nat, ghost text: string) returns (more: bool, err: int, value: nat, p': nat)
    requires Holds(buf[..], text, p)
    modifies buf
    ensures Holds(buf[..], text, p') && Element(text[p..], more, err, value, text[p'..])
  {
    err, value := 0, 0;
    var q := SkipSpaces(buf, p, text);
    var len := Strcspn(buf, q, text);
    more, p' := len != 0, q;
    if more {
      var number;
      number, p' := CutNumber(buf, q, len, text);
      var r := Kstrtoul(number);
      err, value := r.0, r.1;
      ElementCut(text, p, q, len, p');
    }
  }

  lemma ElementCut(text: string, p: nat, q: nat, len: nat, p': nat)
    requires p <= q <= |text| && text[q..] == DropSpaces(text[p..]) && len == Span(text[q..]) && len != 0
    requires var cut := q + len < |text| && text[q + len] == ' '; p' == if cut then q + len + 1 else q + len
    ensures var cut := q + len < |text| && text[q + len] == ' ';
            var r := Kstrtoul(text[q..if cut then q + len else |text|]);
            Element(text[p..], true, r.0, r.1, text[p'..])
  {
    var s := text[q..];
    var cut := q + len < |text| && text[q + len] == ' ';
    assert text[q..if cut then q + len else |text|] == if cut then s[..len] else s;
    assert text[p'..] == s[if cut then len + 1 else len..];
  }

  /** After the calls done, what is left of the result r is to parse element index and up at position p. */
  ghost predicate ParsedUpTo(r: (int, seq<(nat, nat)>), text: string, nelems: nat, done: seq<(nat, nat)>, p: nat,
                             index: nat)
  {
    p <= |text| && r == (Parse(text[p..], index, nelems).0, done + Parse(text[p..], index, nelems).1)
  }

  lemma ParseOn(r: (int, seq<(nat, nat)>), text: string, nelems: nat, done: seq<(nat, nat)>, p: nat, index: nat,
                value: nat, p': nat)
    requires ParsedUpTo(r, text, nelems, done, p, index) && index < nelems && p < |text| && p' <= |text|
    requires Element(text[p..], true, 0, value, text[p'..])
    ensures ParsedUpTo(r, text, nelems, done + [(index, value)], p', index + 1)
  {
    var sets := Parse(text[p'..], index + 1, nelems).1;
    assert done + ([(index, value)] + sets) == done + [(index, value)] + sets;
  }

  lemma ParseEnds(r: (int, seq<(nat, nat)>), text: string, nelems: nat, done: seq<(nat, nat)>, p: nat, index: nat)
    requires ParsedUpTo(r, text, nelems, done, p, index) && Parse(text[p..], index, nelems).1 == []
    ensures r == (Parse(text[p..], index, nelems).0, done)
  {
    assert done + [] == done;
  }

  /**
   set_attr_from_string parses exactly like Parse does on the untouched text:
   the separators it overwrites are never looked at again.
   */
  method SetAttrFromString(buf: array<char>, attrs: Attributes, nelems: nat, ghost text: string) returns (err: int)
    requires Holds(buf[..], text, 0)
    modifies buf, attrs
    ensures err == Parse(text, 0, nelems).0 && attrs.sets == old(attrs.sets) + Parse(text, 0, nelems).1
  {
    var p: nat, index: nat := 0, 0;
    err := 0;
    ghost var r, done: seq<(nat, nat)> := Parse(text, 0, nelems), [];
    ParseStarts(text, nelems);
    while index < nelems && buf[p] != '\0'
      invariant Holds(buf[..], text, p) && attrs.sets == old(attrs.sets) + done && err == 0
      invariant ParsedUpTo(r, text, nelems, done, p, index)
      decreases nelems - index
    {
      ghost var value;
      var stop;
      err, stop, p, value := ParseAndSet(buf, attrs, nelems, index, p, text, done, r);
      if stop {
        return;
      }
      done := done + [(index, value)];
      index := index + 1;
    }
    ParseStops(buf[..], r, text, nelems, done, p, index);
  }

  lemma ParseStarts(text: string, nelems: nat)
    ensures ParsedUpTo(Parse(text, 0, nelems), text, nelems, [], 0, 0)
  {
    assert text[0..] == text && [] + Parse(text, 0, nelems).1 == Parse(text, 0, nelems).1;
  }

  /** The loop's end: the array is full or the text is used up. */
  lemma ParseStops(b: seq<char>, r: (int, seq<(nat, nat)>), text: string, nelems: nat, done: seq<(nat, nat)>, p: nat,
                   index: nat)
    requires Holds(b, text, p) && ParsedUpTo(r, text, nelems, done, p, index) && (nelems <= index || b[p] == '\0')
    ensures r == (0, done)
  {
    ParseEnds(r, text, nelems, done, p, index);
  }

  /** One iteration. */
  method ParseAndSet(buf: array<char>, attrs: Attributes, nelems: nat, index: nat, p: nat, ghost text: string,
                     ghost done: seq<(nat, nat)>, ghost r: (int, seq<(nat, nat)>))
    returns (err: int, stop: bool, p': nat, ghost value: nat)
    requires Holds(buf[..], text, p) && ParsedUpTo(r, text, nelems, done, p, index) && index < nelems && p < |text|
    modifies buf, attrs
    ensures stop ==> r == (err, done) && attrs.sets == old(attrs.sets)
    ensures !stop ==> err == 0 && attrs.sets == old(attrs.sets) + [(index, value)]
    ensures !stop ==> Holds(buf[..], text, p') && ParsedUpTo(r, text, nelems, done + [(index, value)], p', index + 1)
  {
    var more, e, v, next := ParseElement(buf, p, text);
    err, stop, p', value := if more then e else 0, !more || e != 0, next, v;
    if stop {
      ParseEnds(r, text, nelems, done, p, index);
      return;
    }
    ParseOn(r, text, nelems, done, p, index, v, next);
    attrs.Set(index, v);
  }

  /** How many of n characters fit, with the terminator, into size. */
  function Clip(n: nat, size: nat): (c: nat)
    ensures c <= n && (size > 0 ==> c < size) && (c < n ==> size <= c + 1)
  {
    if n < size then n else if size == 0 then 0 else size - 1
  }

  /** scnprintf(buf + at, avail, "%s", s): what fits, always terminated. */
  method Scnprintf(buf: array<char>, at: nat, avail: nat, s: string) returns (n: nat)
    requires at + avail <= buf.Length && '\0' !in s
    modifies buf
    ensures n == Clip(|s|, avail)
    ensures buf[..at + n] == old(buf[..at]) + s[..n]
    ensures avail > 0 ==> buf[at + n] == '\0'
    ensures buf[at + avail..] == old(buf[at + avail..])
  {
    n := if avail == 0 then 0 else if |s| < avail then |s| else avail - 1;
    forall j | 0 <= j < n {
      buf[at + j] := s[j];
    }
    if avail > 0 {
      buf[at + n] := '\0';
    }
  }

  /** The text of elements index and up: a space after each, a newline after the last. */
  function Printed(vals: seq<Size>, index: nat): string
    requires index <= |vals|
    decreases |vals| - index
  {
    if index == |vals| then ""
    else Dec(vals[index]) + (if index == |vals| - 1 then "\n" else " ") + Printed(vals, index + 1)
  }

  /** Clipping piece by piece clips the whole. */
  lemma ClipAppend(done: string, item: string, size: nat)
    ensures var t := Clip(|done|, size);
            t <= size && t + Clip(|item|, size - t) == Clip(|done + item|, size)
            && done[..t] + item[..Clip(|item|, size - t)] == (done + item)[..Clip(|done + item|, size)]
  {
  }

  /**
   kbase_debugfs_helper_get_attr_to_string: as much of the text as fits before
   the terminator, never more than size - 1 characters.
   */
  method GetAttrToString(buf: array<char>, size: nat, vals: seq<Size>) returns (total: nat)
    requires size <= buf.Length
    modifies buf
    ensures total == Clip(|Printed(vals, 0)|, size) && buf[..total] == Printed(vals, 0)[..total]
    ensures vals != [] && size > 0 ==> buf[total] == '\0'
    ensures buf[size..] == old(buf[size..])
  {
    total := 0;
    ghost var full, done: string := Printed(vals, 0), "";
    for index := 0 to |vals|
      invariant full == done + Printed(vals, index) && buf[size..] == old(buf[size..])
      invariant Clipped(buf[..], done, size, total) && (index > 0 && size > 0 ==> Ended(buf[..], total))
    {
      ghost var item;
      total, item := PrintElement(buf, size, total, vals, index, done);
      PrintedNext(vals, index, done, item);
      done := done + item;
    }
    assert done + "" == done;
  }

  predicate Ended(b: seq<char>, total: nat) {
    total < |b| && b[total] == '\0'
  }

  /** One element, after the text done. */
  method PrintElement(buf: array<char>, size: nat, total: nat, vals: seq<Size>, index: nat, ghost done: string)
    returns (total': nat, ghost item: string)
    requires size <= buf.Length && Clipped(buf[..], done, size, total) && index < |vals|
    modifies buf
    ensures item == Dec(vals[index]) + if index == |vals| - 1 then "\n" else " "
    ensures Clipped(buf[..], done + item, size, total') && (size > 0 ==> Ended(buf[..], total'))
    ensures buf[size..] == old(buf[size..])
  {
    var text := Dec(vals[index]) + if index == |vals| - 1 then "\n" else " ";
    total' := AppendItem(buf, size, total, text, done);
    item := text;
  }

  /** Print item after the text done. */
  method AppendItem(buf: array<char>, size: nat, total: nat, item: string, ghost done: string) returns (total': nat)
    requires size <= buf.Length && Clipped(buf[..], done, size, total) && '\0' !in item
    modifies buf
    ensures Clipped(buf[..], done + item, size, total') && (size > 0 ==> total' < size && buf[total'] == '\0')
    ensures buf[size..] == old(buf[size..])
  {
    ClipAppend(done, item, size);
    var n := Scnprintf(buf, total, size - total, item);
    total' := total + n;
  }

  /** b starts with as much of done as fits. */
  ghost predicate Clipped(b: seq<char>, done: string, size: nat, total: nat) {
    total == Clip(|done|, size) && total <= |b| && b[..total] == done[..total]
  }

  lemma PrintedNext(vals: seq<Size>, index: nat, done: string, item: string)
    requires index < |vals| && item == Dec(vals[index]) + if index == |vals| - 1 then "\n" else " "
    ensures done + Printed(vals, index) == done + item + Printed(vals, index + 1)
  {
  }

  function Spaces(n: nat): string {
    if n == 0 then "" else " " + Spaces(n - 1)
  }

  /** vals printed with gaps[i] extra spaces before element i and tail extra ones before the newline. */
  function Spaced(vals: seq<Size>, gaps: seq<nat>, tail: nat): string
    requires |gaps| == |vals|
  {
    if vals == [] then ""
    else Spaces(gaps[0]) + Dec(vals[0]) + if |vals| == 1 then Blanks(tail) else " " + Spaced(vals[1..], gaps[1..], tail)
  }

  /** Element index and up set to vals, in order. */
  function Assign(vals: seq<Size>, index: nat): seq<(nat, nat)> {
    if vals == [] then [] else [(index, vals[0])] + Assign(vals[1..], index + 1)
  }

  lemma {:induction false} DropSpacesOf(n: nat, s: string)
    requires s != [] ==> s[0] != ' '
    ensures DropSpaces(Spaces(n) + s) == s
  {
    if n == 0 {
      assert "" + s == s;
    } else {
      DropSpacesOf(n - 1, s);
      assert (Spaces(n) + s)[1..] == Spaces(n - 1) + s;
    }
  }

  lemma {:induction false} SpanOf(d: string, rest: string)
    requires forall i :: 0 <= i < |d| ==> '0' <= d[i] <= '9'
    requires rest != [] && (rest[0] == ' ' || rest[0] == '\n')
    ensures Span(d + rest) == |d|
  {
    if d == [] {
      assert d + rest == rest;
    } else {
      SpanOf(d[1..], rest);
      assert (d + rest)[1..] == d[1..] + rest;
    }
  }

  lemma {:induction false} DecDigits(v: nat, rest: string)
    ensures LeadingDigits(Dec(v) + rest, 10, 0, 0) == LeadingDigits(rest, 10, v, |Dec(v)|)
  {
    if v < 10 {
      assert (Dec(v) + rest)[1..] == rest;
    } else {
      DecDigits(v / 10, [Digit(v % 10)] + rest);
      assert Dec(v) + rest == Dec(v / 10) + ([Digit(v % 10)] + rest);
      assert ([Digit(v % 10)] + rest)[1..] == rest;
    }
  }

  lemma {:induction false} NoLeadingZero(v: nat)
    requires v > 0
    ensures Dec(v)[0] != '0'
  {
    if v >= 10 {
      NoLeadingZero(v / 10);
    }
  }

  /** A printed size converts back to itself, alone or before the final newline. */
  lemma SizeRoundTrip(v: Size, rest: string)
    requires rest == "" || rest == "\n"
    ensures Kstrtoul(Dec(v) + rest) == (0, v)
  {
    var t := Dec(v) + rest;
    if v == 0 {
      assert t[1..] == rest;
      assert LeadingDigits(t, 8, 0, 0) == (0, 1);
    } else {
      NoLeadingZero(v);
      DecDigits(v, rest);
      assert t[|Dec(v)|..] == rest;
    }
  }

  lemma OnlyBlanksLeft(n: nat, index: nat, nelems: nat)
    ensures Parse(Blanks(n), index, nelems) == (0, [])
  {
    DropSpacesOf(n, "\n");
  }

  /** One number at the front of a text, with what follows it. */
  lemma ParseNumber(n: nat, v: Size, rest: string, index: nat, nelems: nat)
    requires index < nelems && (rest == "\n" || (rest != [] && rest[0] == ' '))
    ensures var after := Parse(if rest == "\n" then rest else rest[1..], index + 1, nelems);
            Parse(Spaces(n) + Dec(v) + rest, index, nelems) == (after.0, [(index, v)] + after.1)
  {
    var text, s := Spaces(n) + Dec(v) + rest, Dec(v) + rest;
    DropSpacesOf(n, s);
    assert text == Spaces(n) + s;
    SpanOf(Dec(v), rest);
    SizeRoundTrip(v, "");
    SizeRoundTrip(v, "\n");
    assert s[..|Dec(v)|] == Dec(v) + "" && s[|Dec(v)|..] == rest;
    assert rest[0] == ' ' ==> s[|Dec(v)| + 1..] == rest[1..];
  }

  /** What follows the last number. */
  function Blanks(n: nat): string {
    Spaces(n) + "\n"
  }

  lemma BlanksShape(n: nat)
    ensures if n == 0 then Blanks(n) == "\n" else Blanks(n)[0] == ' ' && Blanks(n)[1..] == Blanks(n - 1)
  {
    if n > 0 {
      assert Spaces(n) == " " + Spaces(n - 1);
    }
  }

  lemma LastParses(gap: nat, v: Size, tail: nat, index: nat, nelems: nat)
    requires index < nelems
    ensures Parse(Spaces(gap) + Dec(v) + Blanks(tail), index, nelems) == (0, [(index, v)])
  {
    BlanksShape(tail);
    ParseNumber(gap, v, Blanks(tail), index, nelems);
    OnlyBlanksLeft(if tail == 0 then 0 else tail - 1, index + 1, nelems);
    assert [(index, v)] + [] == [(index, v)];
  }

  /** How many of count elements from index on fit in an array of nelems. */
  function Fitting(count: nat, index: nat, nelems: nat): (n: nat)
    ensures n <= count
  {
    if nelems <= index then 0 else if nelems - index < count then nelems - index else count
  }

  /** Parsing a printed array, with any extra spaces, sets as many elements as there are, in order, and succeeds. */
  lemma {:induction false} SpacedParses(vals: seq<Size>, gaps: seq<nat>, tail: nat, index: nat, nelems: nat)
    requires |gaps| == |vals| && vals != []
    ensures Parse(Spaced(vals, gaps, tail), index, nelems) == (0, Assign(vals[..Fitting(|vals|, index, nelems)], index))
    decreases |vals|
  {
    if index < nelems {
      if |vals| == 1 {
        LastParses(gaps[0], vals[0], tail, index, nelems);
        AssignLast(vals, index);
      } else {
        SpacedParses(vals[1..], gaps[1..], tail, index + 1, nelems);
        OneMoreParses(vals, gaps, tail, index, nelems);
      }
    }
  }

  lemma OneMoreParses(vals: seq<Size>, gaps: seq<nat>, tail: nat, index: nat, nelems: nat)
    requires |gaps| == |vals| > 1 && index < nelems
    requires Parse(Spaced(vals[1..], gaps[1..], tail), index + 1, nelems) ==
      (0, Assign(vals[1..][..Fitting(|vals| - 1, index + 1, nelems)], index + 1))
    ensures Parse(Spaced(vals, gaps, tail), index, nelems) == (0, Assign(vals[..Fitting(|vals|, index, nelems)], index))
  {
    NextParses(vals, gaps, tail, index, nelems);
    AssignNext(vals, Fitting(|vals|, index, nelems), index);
  }

  lemma AssignNext(vals: seq<Size>, n: nat, index: nat)
    requires 0 < n <= |vals|
    ensures Assign(vals[..n], index) == [(index, vals[0])] + Assign(vals[1..][..n - 1], index + 1)
  {
    assert vals[..n][1..] == vals[1..][..n - 1];
  }

  lemma AssignLast(vals: seq<Size>, index: nat)
    requires |vals| == 1
    ensures Assign(vals[..1], index) == [(index, vals[0])]
  {
    AssignNext(vals, 1, index);
    assert vals[1..][..0] == [] && [(index, vals[0])] + [] == [(index, vals[0])];
  }

  lemma NextParses(vals: seq<Size>, gaps: seq<nat>, tail: nat, index: nat, nelems: nat)
    requires |gaps| == |vals| > 1 && index < nelems
    ensures var after := Parse(Spaced(vals[1..], gaps[1..], tail), index + 1, nelems);
            Parse(Spaced(vals, gaps, tail), index, nelems) == (after.0, [(index, vals[0])] + after.1)
  {
    var more := " " + Spaced(vals[1..], gaps[1..], tail);
    ParseNumber(gaps[0], vals[0], more, index, nelems);
    assert more[1..] == Spaced(vals[1..], gaps[1..], tail);
  }

  lemma PrintedLast(vals: seq<Size>, index: nat, gaps: seq<nat>)
    requires index == |vals| - 1 && gaps == [0]
    ensures Printed(vals, index) == Spaced(vals[index..], gaps, 0)
  {
    assert Printed(vals, index) == Dec(vals[index]) + "\n";
    assert Spaces(0) + Dec(vals[index]) + Blanks(0) == Dec(vals[index]) + "\n";
  }

  /** The printer's own text has no extra space. */
  lemma {:induction false} PrintedIsSpaced(vals: seq<Size>, index: nat)
    requires index < |vals|
    ensures Printed(vals, index) == Spaced(vals[index..], seq(|vals| - index, _ => 0), 0)
    decreases |vals| - index
  {
    var rest, gaps := vals[index..], seq(|vals| - index, _ => 0);
    if index == |vals| - 1 {
      PrintedLast(vals, index, gaps);
    } else {
      PrintedIsSpaced(vals, index + 1);
      assert rest[1..] == vals[index + 1..] && gaps[1..] == seq(|vals| - (index + 1), _ => 0);
      SpacedNext(rest, gaps, 0);
    }
  }

  lemma SpacedNext(vals: seq<Size>, gaps: seq<nat>, tail: nat)
    requires |gaps| == |vals| > 1 && gaps[0] == 0
    ensures Spaced(vals, gaps, tail) == Dec(vals[0]) + " " + Spaced(vals[1..], gaps[1..], tail)
  {
    assert Spaces(0) + Dec(vals[0]) == Dec(vals[0]);
  }

  /** Printing into a large enough buffer and parsing the buffer sets every element once, in order, to its value. */
  method PrintThenParse(buf: array<char>, vals: seq<Size>, attrs: Attributes) returns (err: int)
    requires vals != [] && |Printed(vals, 0)| < buf.Length
    modifies buf, attrs
    ensures err == 0 && attrs.sets == old(attrs.sets) + Assign(vals, 0)
  {
    var total := GetAttrToString(buf, buf.Length, vals);
    ghost var text := Printed(vals, 0);
    PrintedIsSpaced(vals, 0);
    SpacedParses(vals, seq(|vals|, _ => 0), 0, 0, |vals|);
    PrintedNoNul(vals, 0);
    assert vals[0..] == vals && vals[..|vals|] == vals && text[..|text|] == text;
    err := SetAttrFromString(buf, attrs, |vals|, text);
  }

  lemma {:induction false} PrintedNoNul(vals: seq<Size>, index: nat)
    requires index <= |vals|
    ensures '\0' !in Printed(vals, index)
    decreases |vals| - index
  {
    if index < |vals| {
      PrintedNoNul(vals, index + 1);
    }
  }
}
