/** Character classes, decimal and octal numerals, and the few Ruby string
    and array operations the plugin relies on (String#split, String#strip,
    String#include?, Kernel#Integer on digit strings, Array#-). All
    character classes are ASCII. */
module Text {

  datatype Option<+T> = None | Some(value: T) {
    function GetOr(default: T): T {
      match this
      case Some(v) => v
      case None => default
    }
  }

  datatype Result<+T> = Ok(value: T) | Err(error: string)

  /** A value handed to a resource attribute: an Integer or a String (a
      Symbol is represented by its name). */
  datatype Value = IntV(i: int) | StrV(s: string)

  /** Ruby's `to_s` on such a value. */
  function ValueText(v: Value): string {
    match v
    case IntV(i) => if i < 0 then "-" + NatToString(-i) else NatToString(i)
    case StrV(s) => s
  }

  predicate IsDigit(c: char) { '0' <= c <= '9' }
  predicate IsOctalDigit(c: char) { '0' <= c <= '7' }
  predicate IsAlpha(c: char) { 'a' <= c <= 'z' || 'A' <= c <= 'Z' }
  predicate IsAlnum(c: char) { IsAlpha(c) || IsDigit(c) }
  /** Ruby's `\w`. */
  predicate IsWordChar(c: char) { IsAlnum(c) || c == '_' }
  /** Ruby's `\h`. */
  predicate IsHex(c: char) { IsDigit(c) || 'a' <= c <= 'f' || 'A' <= c <= 'F' }
  /** Ruby's `\s`: space, tab, line feed, carriage return, vertical tab, form feed. */
  predicate IsSpace(c: char) {
    c == ' ' || c == '\t' || c == '\n' || c == '\r' || c == '\U{000B}' || c == '\U{000C}'
  }
  predicate NotSpace(c: char) { !IsSpace(c) }

  /** A non-empty run of decimal digits (Ruby `\d+`). */
  predicate Digits(s: string) { |s| > 0 && forall i :: 0 <= i < |s| ==> IsDigit(s[i]) }
  predicate NoSpace(s: string) { forall i :: 0 <= i < |s| ==> !IsSpace(s[i]) }

  /** A digit string without a superfluous leading zero. */
  predicate Canonical(s: string) { Digits(s) && (s[0] == '0' ==> |s| == 1) }

  function DigitValue(c: char): nat requires IsDigit(c) { (c as int - '0' as int) as nat }

  /** The value of a string of decimal digits, most significant first. */
  function DecValue(s: string): nat
    requires forall i :: 0 <= i < |s| ==> IsDigit(s[i])
  {
    if |s| == 0 then 0 else DecValue(s[..|s| - 1]) * 10 + DigitValue(s[|s| - 1])
  }

  lemma DecSnoc(s: string, c: char)
    requires forall i :: 0 <= i < |s| ==> IsDigit(s[i])
    requires IsDigit(c)
    ensures DecValue(s + [c]) == DecValue(s) * 10 + DigitValue(c)
  {
    assert (s + [c])[..|s|] == s;
  }

  /** The value of a string of octal digits. */
  function OctValue(s: string): nat
    requires forall i :: 0 <= i < |s| ==> IsOctalDigit(s[i])
  {
    if |s| == 0 then 0
    else
      var c := s[|s| - 1];
      assert IsOctalDigit(c);
      OctValue(s[..|s| - 1]) * 8 + (c as int - '0' as int)
  }

  function DigitChar(d: nat): (c: char)
    requires d < 10
    ensures IsDigit(c) && DigitValue(c) == d
  {
    ('0' as int + d) as char
  }

  /** Ruby's `Integer#to_s` on a natural number. */
  function NatToString(n: nat): (s: string)
    ensures Canonical(s)
    ensures DecValue(s) == n
  {
    if n < 10 then [DigitChar(n)]
    else
      var p := NatToString(n / 10);
      var s := p + [DigitChar(n % 10)];
      assert s[..|s| - 1] == p;
      s
  }

  lemma {:induction false} DecValueLeadingZero(s: string)
    requires Digits(s) && s[0] != '0'
    ensures DecValue(s) >= Pow10(|s| - 1)
  {
    if |s| > 1 {
      var p := s[..|s| - 1];
      assert p[0] == s[0];
      DecValueLeadingZero(p);
    }
  }

  function Pow10(k: nat): (r: nat) ensures r >= 1 { if k == 0 then 1 else 10 * Pow10(k - 1) }

  lemma {:induction false} DecValueBound(s: string)
    requires forall i :: 0 <= i < |s| ==> IsDigit(s[i])
    ensures DecValue(s) < Pow10(|s|)
  {
    if |s| > 0 { DecValueBound(s[..|s| - 1]); }
  }

  /** A canonical digit string is exactly the decimal text of its value, so
      `NatToString` and `DecValue` are inverse on canonical strings. */
  lemma {:induction false} CanonicalRoundTrip(s: string)
    requires Canonical(s)
    ensures NatToString(DecValue(s)) == s
  {
    if |s| > 1 {
      var p := s[..|s| - 1];
      assert p[0] == s[0];
      DecValueLeadingZero(s);
      assert Pow10(|s| - 1) >= 10 by { assert |s| - 1 >= 1; }
      assert DecValue(s) / 10 == DecValue(p);
      assert DecValue(s) % 10 == DigitValue(s[|s| - 1]);
      CanonicalRoundTrip(p);
    }
  }

  /** `Kernel#Integer` applied to a string of digits: a leading zero makes the
      rest an octal numeral (so "010" is 8 and "08" raises), anything else is
      decimal. A string that is not all digits raises (`None`). */
  function RubyInteger(s: string): (r: Option<nat>)
    ensures Canonical(s) ==> r == Some(DecValue(s))
    ensures !Digits(s) ==> r == None
  {
    if !Digits(s) then None
    else if |s| > 1 && s[0] == '0' then
      var rest := s[1..];
      if forall i :: 0 <= i < |rest| ==> IsOctalDigit(rest[i]) then Some(OctValue(rest)) else None
    else Some(DecValue(s))
  }

  lemma RubyIntegerOctalExample()
    ensures RubyInteger("010") == Some(8)
    ensures RubyInteger("08") == None
  {
    assert "10"[..1] == "1";
    assert "1"[..0] == "";
    assert OctValue("1") == 1;
    assert OctValue("10") == 8;
    assert "010"[1..] == "10";
    assert "08"[1..] == "8";
    assert !IsOctalDigit("8"[0]);
  }

  /** `s[i..j]` consists of P-characters and `j` is the first position at or
      after `i` that is not one (or the end). */
  function Span(s: string, i: nat, P: char -> bool): (j: nat)
    requires i <= |s|
    ensures i <= j <= |s|
    ensures forall k :: i <= k < j ==> P(s[k])
    ensures j < |s| ==> !P(s[j])
    decreases |s| - i
  {
    if i < |s| && P(s[i]) then Span(s, i + 1, P) else i
  }

  /** `Span` stops exactly at the first position after `i` that fails `P`. */
  lemma {:induction false} SpanAt(s: string, i: nat, j: nat, P: char -> bool)
    requires i <= j <= |s|
    requires forall k :: i <= k < j ==> P(s[k])
    requires j == |s| || !P(s[j])
    ensures Span(s, i, P) == j
    decreases j - i
  {
    if i < j { SpanAt(s, i + 1, j, P); }
  }

  /** A run of P-characters followed by a non-P character (or nothing) is
      exactly the span at the start of the concatenation. */
  lemma SpanPrefix(x: string, y: string, P: char -> bool)
    requires forall k :: 0 <= k < |x| ==> P(x[k])
    requires y == [] || !P(y[0])
    ensures Span(x + y, 0, P) == |x|
    ensures (x + y)[..|x|] == x && (x + y)[|x|..] == y
  {
    assert forall k :: 0 <= k < |x| ==> (x + y)[k] == x[k];
    assert |x| < |x + y| ==> (x + y)[|x|] == y[0];
    SpanAt(x + y, 0, |x|, P);
  }

  /** All fields of `s` between occurrences of separator characters,
      including empty ones: there is always one more field than separators. */
  function Fields(s: string, sep: char -> bool): (r: seq<string>)
    ensures |r| >= 1
    decreases |s|
  {
    var j := Span(s, 0, (c: char) => !sep(c));
    if j == |s| then [s] else [s[..j]] + Fields(s[j + 1..], sep)
  }

  function DropTrailingEmpty(fs: seq<string>): (r: seq<string>)
    ensures |r| <= |fs| && r == fs[..|r|]
    ensures r != [] ==> r[|r| - 1] != ""
    ensures forall k :: |r| <= k < |fs| ==> fs[k] == ""
  {
    if fs == [] then [] else if fs[|fs| - 1] == "" then DropTrailingEmpty(fs[..|fs| - 1]) else fs
  }

  /** Ruby's `String#split` by a one-character pattern with no limit:
      trailing empty fields are removed, so the empty string splits to []. */
  function Split(s: string, sep: char -> bool): seq<string>
  {
    DropTrailingEmpty(Fields(s, sep))
  }

  /** `split(/\n/)`: the lines of a command's output. */
  function Lines(output: string): seq<string> { Split(output, c => c == '\n') }

  /** The non-empty whitespace-separated words of `s`. */
  function Words(s: string): (r: seq<string>)
    ensures forall k :: 0 <= k < |r| ==> r[k] != ""
  {
    Nonempty(Fields(s, IsSpace))
  }

  function Nonempty(fs: seq<string>): (r: seq<string>)
    ensures forall k :: 0 <= k < |r| ==> r[k] != ""
    ensures forall k :: 0 <= k < |r| ==> r[k] in fs
  {
    if fs == [] then [] else if fs[0] == "" then Nonempty(fs[1..]) else [fs[0]] + Nonempty(fs[1..])
  }

  /** Ruby's `String#strip`: whitespace and NUL removed at both ends. */
  predicate IsStripped(c: char) { IsSpace(c) || c == '\0' }

  function StripLeft(s: string): (r: string)
    ensures |r| <= |s| && r == s[|s| - |r|..]
    ensures r != [] ==> !IsStripped(r[0])
  {
    if s != [] && IsStripped(s[0]) then StripLeft(s[1..]) else s
  }

  function StripRight(s: string): (r: string)
    ensures |r| <= |s| && r == s[..|r|]
    ensures r != [] ==> !IsStripped(r[|r| - 1])
  {
    if s != [] && IsStripped(s[|s| - 1]) then StripRight(s[..|s| - 1]) else s
  }

  function Strip(s: string): (r: string)
    ensures r != [] ==> !IsStripped(r[0]) && !IsStripped(r[|r| - 1])
  {
    var l := StripLeft(s);
    var r := StripRight(l);
    assert r != [] ==> r[0] == l[0];
    r
  }

  /** Ruby's `String#include?` on a substring. */
  predicate Contains(s: string, sub: string)
    decreases |s|
  {
    |sub| <= |s| && (s[..|sub|] == sub || (|s| > 0 && Contains(s[1..], sub)))
  }

  /** Ruby's `Array#-`: the elements of `a` that do not occur in `b`, in order,
      duplicates kept. */
  function Difference<T(==,!new)>(a: seq<T>, b: seq<T>): (r: seq<T>)
    ensures forall x :: x in r <==> x in a && x !in b
    ensures |r| <= |a|
  {
    if a == [] then [] else (if a[0] in b then [] else [a[0]]) + Difference(a[1..], b)
  }

  /** Two lists hold the same elements, ignoring order and repetition. */
  predicate SameElements<T(==,!new)>(a: seq<T>, b: seq<T>) {
    (forall x :: x in a ==> x in b) && (forall x :: x in b ==> x in a)
  }

  lemma DifferenceEmpty<T(!new)>(a: seq<T>, b: seq<T>)
    ensures Difference(a, b) == [] <==> forall x :: x in a ==> x in b
  {
    if Difference(a, b) != [] { assert Difference(a, b)[0] in Difference(a, b); }
  }

  /** Substring search for a single character is membership. */
  lemma {:induction false} ContainsChar(s: string, c: char)
    ensures Contains(s, [c]) <==> c in s
  {
    if |s| > 0 {
      ContainsChar(s[1..], c);
      assert s == [s[0]] + s[1..];
    }
  }

  /** Every element of `xs`, checked front to back, occurs in `ys`. */
  predicate AllIncluded<T(==)>(xs: seq<T>, ys: seq<T>) {
    xs == [] || (xs[0] in ys && AllIncluded(xs[1..], ys))
  }

  lemma {:induction false} AllIncludedMeaning<T(!new)>(xs: seq<T>, ys: seq<T>)
    ensures AllIncluded(xs, ys) <==> forall x :: x in xs ==> x in ys
  {
    if xs != [] {
      AllIncludedMeaning(xs[1..], ys);
      assert forall x :: x in xs ==> x == xs[0] || x in xs[1..];
    }
  }

  /** The `insync?` of the list properties: each list includes the other, so
      lists are in sync exactly when they hold the same set of elements,
      whatever their order and repetitions. */
  function InSync<T(==,!new)>(current: seq<T>, should: seq<T>): (r: bool)
    ensures r <==> (set x | x in current) == (set x | x in should)
  {
    AllIncludedMeaning(current, should);
    AllIncludedMeaning(should, current);
    var a := set x | x in current;
    var b := set x | x in should;
    assert (forall x :: x in current ==> x in should) && (forall x :: x in should ==> x in current) <==> a == b by {
      if a == b {
        assert forall x :: x in current ==> x in a;
        assert forall x :: x in should ==> x in b;
      }
    }
    AllIncluded(current, should) && AllIncluded(should, current)
  }

  /** Lists in sync hold the same elements. */
  lemma InSyncSame<T(!new)>(current: seq<T>, should: seq<T>)
    requires InSync(current, should)
    ensures SameElements(current, should)
  {
    var a := set y | y in current;
    var b := set y | y in should;
    assert a == b;
    forall x | x in current ensures x in should { assert x in a; }
    forall x | x in should ensures x in current { assert x in b; }
  }

  lemma ConcatAssoc<T>(a: seq<T>, b: seq<T>, c: seq<T>)
    ensures (a + b) + c == a + (b + c)
  {
  }

  lemma Assoc4<T>(x: seq<T>, y: seq<T>, z: seq<T>, w: seq<T>)
    ensures x + (y + (z + w)) == x + y + z + w
  {
  }

  lemma Assoc6<T>(p: seq<T>, a: seq<T>, b: seq<T>, x: seq<T>, y: seq<T>, z: seq<T>)
    ensures p + a + b + x + y + z == p + (a + b + x + y + z)
  {
  }

  /** What `x + y` adds to `x` is `y`. */
  lemma AppendRest<T>(x: seq<T>, y: seq<T>)
    ensures (x + y)[|x|..] == y
  {
  }

  /** What `z` adds to `x` is what `y` adds, then what `z` adds to `y`. */
  lemma PrefixTrans<T>(x: seq<T>, y: seq<T>, z: seq<T>)
    requires x <= y && y <= z
    ensures x <= z
  {
  }

  lemma PrefixSlices<T>(x: seq<T>, y: seq<T>, z: seq<T>)
    requires x <= y && y <= z
    ensures z[|x|..] == y[|x|..] + z[|y|..]
  {
  }

  lemma PrefixOfConcat<T>(x: seq<T>, y: seq<T>, z: seq<T>, w: seq<T>)
    ensures x <= x + y + z + w
  {
    assert (x + y + z + w)[..|x|] == x;
  }

  /** A word that survives `strip` and whitespace splitting unchanged. */
  predicate IsToken(t: string) { t != "" && forall i :: 0 <= i < |t| ==> !IsStripped(t[i]) }

  predicate AllTokens(toks: seq<string>) { forall k :: 0 <= k < |toks| ==> IsToken(toks[k]) }

  /** The words joined by single spaces. */
  function Join(toks: seq<string>): string
    decreases |toks|
  {
    if toks == [] then "" else if |toks| == 1 then toks[0] else toks[0] + " " + Join(toks[1..])
  }

  lemma {:induction false} JoinEnds(toks: seq<string>)
    requires toks != [] && AllTokens(toks)
    ensures Join(toks)[0] == toks[0][0]
    ensures Join(toks)[|Join(toks)| - 1] == toks[|toks| - 1][|toks[|toks| - 1]| - 1]
    decreases |toks|
  {
    if |toks| > 1 {
      var rest := toks[1..];
      assert AllTokens(rest) by { assert forall k :: 0 <= k < |rest| ==> rest[k] == toks[k + 1]; }
      JoinEnds(rest);
      assert Join(toks) == toks[0] + " " + Join(rest);
    }
  }

  lemma FieldsSingle(t: string)
    requires NoSpace(t)
    ensures Fields(t, IsSpace) == [t]
  {
    FieldsNoSep(t, IsSpace);
  }

  lemma FieldsCons(t: string, rest: string)
    requires NoSpace(t)
    ensures Fields(t + " " + rest, IsSpace) == [t] + Fields(rest, IsSpace)
  {
    FieldsAtSep(t, ' ', rest, IsSpace);
  }

  /** A string without separators is a single field. */
  lemma FieldsNoSep(t: string, sep: char -> bool)
    requires forall i :: 0 <= i < |t| ==> !sep(t[i])
    ensures Fields(t, sep) == [t]
  {
    SpanAt(t, 0, |t|, (c: char) => !sep(c));
  }

  /** The text before the first separator is the first field. */
  lemma FieldsAtSep(t: string, c: char, rest: string, sep: char -> bool)
    requires forall i :: 0 <= i < |t| ==> !sep(t[i])
    requires sep(c)
    ensures Fields(t + [c] + rest, sep) == [t] + Fields(rest, sep)
  {
    var s := t + [c] + rest;
    assert forall k :: 0 <= k < |t| ==> s[k] == t[k];
    assert s[|t|] == c;
    SpanAt(s, 0, |t|, (x: char) => !sep(x));
    assert s[..|t|] == t;
    assert s[|t| + 1..] == rest;
  }

  lemma {:induction false} FieldsJoin(toks: seq<string>)
    requires toks != [] && AllTokens(toks)
    ensures Fields(Join(toks), IsSpace) == toks
    decreases |toks|
  {
    var t := toks[0];
    assert IsToken(t);
    if |toks| == 1 {
      FieldsSingle(t);
    } else {
      var rest := toks[1..];
      assert AllTokens(rest) by { assert forall k :: 0 <= k < |rest| ==> rest[k] == toks[k + 1]; }
      FieldsCons(t, Join(rest));
      FieldsJoin(rest);
      assert toks == [t] + rest;
    }
  }

  lemma {:induction false} NonemptyKeeps(toks: seq<string>)
    requires AllTokens(toks)
    ensures Nonempty(toks) == toks
    decreases |toks|
  {
    if toks != [] {
      var rest := toks[1..];
      assert AllTokens(rest) by { assert forall k :: 0 <= k < |rest| ==> rest[k] == toks[k + 1]; }
      NonemptyKeeps(rest);
      assert toks == [toks[0]] + rest;
    }
  }

  lemma StripKeeps(s: string)
    requires s != [] ==> !IsStripped(s[0]) && !IsStripped(s[|s| - 1])
    ensures Strip(s) == s
  {
    assert StripLeft(s) == s;
    assert StripRight(s) == s;
  }

  /** A stripped string keeps its content when a newline is appended to it
      and the result is stripped. */
  lemma StripNewline(x: string)
    requires x != [] ==> !IsStripped(x[0]) && !IsStripped(x[|x| - 1])
    ensures Strip(x + "\n") == x
  {
    var y := x + "\n";
    if x == [] {
      assert StripLeft(y) == StripLeft(y[1..]) && y[1..] == [];
      assert StripRight([]) == [];
    } else {
      assert StripLeft(y) == y by { assert y[0] == x[0]; }
      assert y[..|y| - 1] == x;
      assert StripRight(y) == StripRight(x);
      StripKeeps(x);
      assert StripLeft(x) == x;
    }
  }

  /** Space-joined words with a final newline, stripped and split at
      whitespace, are the words again. */
  lemma SplitJoinLine(toks: seq<string>)
    requires AllTokens(toks)
    ensures Split(Strip(Join(toks) + "\n"), IsSpace) == toks
  {
    if toks == [] {
      assert Join(toks) == "";
      StripNewline("");
      assert Fields("", IsSpace) == [""];
      assert DropTrailingEmpty([""]) == DropTrailingEmpty([""][..0]) == [];
    } else {
      JoinEnds(toks);
      StripNewline(Join(toks));
      FieldsJoin(toks);
      assert toks[|toks| - 1] != "" by { assert IsToken(toks[|toks| - 1]); }
    }
  }

  /** Words joined by single spaces are stripped already, and splitting them
      at whitespace gives the words back. */
  lemma JoinWords(toks: seq<string>)
    requires AllTokens(toks)
    ensures Strip(Join(toks)) == Join(toks)
    ensures Words(Join(toks)) == toks
  {
    if toks == [] {
      assert Join(toks) == "";
      assert Fields("", IsSpace) == [""];
      assert Nonempty([""]) == Nonempty([""][1..]) == [];
    } else {
      JoinEnds(toks);
      StripKeeps(Join(toks));
      FieldsJoin(toks);
      NonemptyKeeps(toks);
    }
  }
}
