/** The rules of the `network_route` type: splitting the title into prefix
    and metric, validating and munging the attributes, and autorequire. */
module RouteType {
  import opened Text

  /** The namevars a title supplies: the prefix, and the metric when the
      title has a second word. */
  datatype Title = Title(prefix: string, metric: Option<string>)

  /** The two title patterns, tried in order: one word, or two words with
      whitespace between them, with nothing before or after. A title that
      matches neither gives `None`. */
  function SplitTitle(t: string): (r: Option<Title>)
    ensures r.Some? ==> r.value.prefix != "" && NoSpace(r.value.prefix)
    ensures r.Some? && r.value.metric.Some? ==> r.value.metric.value != "" && NoSpace(r.value.metric.value)
  {
    var i := Span(t, 0, NotSpace);
    if i == 0 then None
    else if i == |t| then Some(Title(t, None))
    else
      var j := Span(t, i, IsSpace);
      var k := Span(t, j, NotSpace);
      if j < k && k == |t| then Some(Title(t[..i], Some(t[j..]))) else None
  }

  predicate AllSpace(w: string) { forall k :: 0 <= k < |w| ==> IsSpace(w[k]) }

  /** A one-word title is all prefix. */
  lemma TitleOneWord(p: string)
    requires p != "" && NoSpace(p)
    ensures SplitTitle(p) == Some(Title(p, None))
  {
    SpanAt(p, 0, |p|, NotSpace);
  }

  /** Two words with any whitespace between them give prefix and metric. */
  lemma TitleTwoWords(p: string, w: string, m: string)
    requires p != "" && NoSpace(p) && w != "" && AllSpace(w) && m != "" && NoSpace(m)
    ensures SplitTitle(p + w + m) == Some(Title(p, Some(m)))
  {
    var t := p + w + m;
    assert forall k :: 0 <= k < |p| ==> t[k] == p[k];
    assert forall k :: |p| <= k < |p| + |w| ==> t[k] == w[k - |p|];
    assert forall k :: |p| + |w| <= k < |t| ==> t[k] == m[k - |p| - |w|];
    SpanAt(t, 0, |p|, NotSpace);
    SpanAt(t, |p|, |p| + |w|, IsSpace);
    SpanAt(t, |p| + |w|, |t|, NotSpace);
    assert t[..|p|] == p;
    assert t[|p| + |w|..] == m;
  }

  /** Conversely, a title that splits is one word, or two words with only
      whitespace between them. */
  lemma TitleShape(t: string)
    requires SplitTitle(t).Some?
    ensures var r := SplitTitle(t).value;
      (r.metric.None? ==> t == r.prefix) &&
      (r.metric.Some? ==>
         (|r.prefix| + |r.metric.value| < |t| &&
          t[..|r.prefix|] == r.prefix && t[|t| - |r.metric.value|..] == r.metric.value &&
          AllSpace(t[|r.prefix|..|t| - |r.metric.value|])))
  {
  }

  /** A title with leading whitespace, or with three words, matches neither
      pattern. */
  lemma TitleLeadingBlank()
    ensures SplitTitle(" 10.0.0.0/8").None?
  {
    SpanAt(" 10.0.0.0/8", 0, 0, NotSpace);
  }

  /** Three words separated by blanks match neither pattern. */
  lemma TitleThreeWords(p: string, m: string, x: string)
    requires p != "" && NoSpace(p) && m != "" && NoSpace(m) && x != ""
    ensures SplitTitle(p + " " + m + " " + x).None?
  {
    var t := p + " " + m + " " + x;
    var i := |p|;
    var k := i + 1 + |m|;
    assert forall j :: 0 <= j < i ==> t[j] == p[j];
    assert t[i] == ' ';
    assert forall j :: i + 1 <= j < k ==> t[j] == m[j - i - 1];
    assert t[k] == ' ';
    SpanAt(t, 0, i, NotSpace);
    SpanAt(t, i, i + 1, IsSpace);
    SpanAt(t, i + 1, k, NotSpace);
  }

  lemma TitleRejected()
    ensures SplitTitle(" 10.0.0.0/8").None?
    ensures SplitTitle("10.0.0.0/8 100 x").None?
  {
    TitleLeadingBlank();
    assert "10.0.0.0/8 100 x" == "10.0.0.0/8" + " " + "100" + " " + "x";
    TitleThreeWords("10.0.0.0/8", "100", "x");
  }

  /** The prefix must be accepted by the IP address parser `isIp` and carry
      a prefix length. */
  predicate ValidPrefix(isIp: string -> bool, v: string) { isIp(v) && Contains(v, "/") }

  lemma PrefixMeaning(isIp: string -> bool, v: string)
    ensures ValidPrefix(isIp, v) <==> isIp(v) && '/' in v
  {
    ContainsChar(v, '/');
  }

  /** The next hop must be an IP address; no prefix length is required. */
  predicate ValidNexthop(isIp: string -> bool, v: string) { isIp(v) }

  datatype MetricError = NotDigits | NotAnInteger | OutOfRange

  /** Metric validation: the value's text must be all digits, `Integer` of
      it must succeed, and the number must lie in 0..255. */
  function MetricCheck(v: Value): (r: Option<MetricError>)
    ensures r == Some(NotDigits) <==> !Digits(ValueText(v))
  {
    if !Digits(ValueText(v)) then Some(NotDigits)
    else
      match v
      case IntV(i) => if 0 <= i <= 255 then None else Some(OutOfRange)
      case StrV(s) =>
        match RubyInteger(s)
        case None => Some(NotAnInteger)
        case Some(n) => if n <= 255 then None else Some(OutOfRange)
  }

  lemma NegativeNotDigits(i: int)
    requires i < 0
    ensures !Digits(ValueText(IntV(i)))
  {
    assert ValueText(IntV(i))[0] == '-';
  }

  /** An Integer metric is valid exactly in 0..255; a String one exactly
      when it is digits whose `Integer` value is at most 255. */
  lemma MetricMeaning(v: Value)
    ensures v.IntV? ==> (MetricCheck(v).None? <==> 0 <= v.i <= 255)
    ensures v.StrV? ==> (MetricCheck(v).None? <==> Digits(v.s) && RubyInteger(v.s).Some? && RubyInteger(v.s).value <= 255)
  {
    if v.IntV? && v.i < 0 {
      NegativeNotDigits(v.i);
    }
  }

  /** The munged metric, `Integer(value)`. */
  function MungeMetric(v: Value): (r: nat)
    requires MetricCheck(v).None?
    ensures r <= 255
    ensures v.IntV? ==> r == v.i
    ensures v.StrV? && Canonical(v.s) ==> r == DecValue(v.s)
  {
    match v
    case IntV(i) => i
    case StrV(s) => RubyInteger(s).value
  }

  const DefaultMetric: nat := 0

  lemma MetricExamples()
    ensures MetricCheck(IntV(100)).None? && MungeMetric(IntV(100)) == 100
    ensures MetricCheck(IntV(10000)) == Some(OutOfRange)
    ensures MetricCheck(IntV(-1)) == Some(NotDigits)
  {
    MetricMeaning(IntV(100));
    MetricMeaning(IntV(10000));
    NegativeNotDigits(-1);
  }

  lemma StringMetricExample()
    ensures MetricCheck(StrV("100")).None? && MungeMetric(StrV("100")) == 100
  {
    assert DecValue("100"[..2]) == 10 by { assert "100"[..2] == "10"; assert "10"[..1] == "1"; }
    assert DecValue("100") == 100;
  }

  /** The prefix and metric of the resource a title names: the metric is
      the title's second word, or the default. */
  function TitleNamevars(t: string): (r: Result<(string, nat)>)
    ensures r.Ok? ==> SplitTitle(t).Some? && r.value.0 == SplitTitle(t).value.prefix && r.value.1 <= 255
    ensures SplitTitle(t).Some? && SplitTitle(t).value.metric.None? ==> r == Ok((t, DefaultMetric))
  {
    match SplitTitle(t)
    case None => Err("No set of title patterns matched the title")
    case Some(Title(p, None)) => Ok((p, DefaultMetric))
    case Some(Title(p, Some(m))) =>
      if MetricCheck(StrV(m)).None? then Ok((p, MungeMetric(StrV(m)))) else Err("Invalid value")
  }

  lemma Metric200()
    ensures MetricCheck(StrV("200")).None? && MungeMetric(StrV("200")) == 200
  {
    assert DecValue("200"[..2]) == 20 by { assert "200"[..2] == "20"; assert "20"[..1] == "2"; }
    assert DecValue("200") == 200;
  }

  lemma TitleExample()
    ensures TitleNamevars("10.0.0.0/24 200") == Ok(("10.0.0.0/24", 200))
  {
    var p := "10.0.0.0/24";
    var m := "200";
    assert p + " " + m == "10.0.0.0/24 200";
    TitleTwoWords(p, " ", m);
    Metric200();
  }

  lemma TitleDefaultMetric()
    ensures TitleNamevars("10.0.0.0/24") == Ok(("10.0.0.0/24", 0))
  {
    TitleOneWord("10.0.0.0/24");
  }

  /** A route requires the interface of its device, when it has one. */
  function Autorequire(device: Option<string>): (r: seq<string>)
    ensures device.None? <==> r == []
    ensures device.Some? ==> r == [device.value]
  {
    if device.Some? then [device.value] else []
  }
}
