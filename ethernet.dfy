/** The `mac` property of an interface: six pairs of hex digits, each of the
    first five optionally followed by `:` or `-`. */
module EthernetType {
  import opened Text

  predicate IsMacSep(c: char) { c == ':' || c == '-' }

  predicate HexPair(s: string) { |s| >= 2 && IsHex(s[0]) && IsHex(s[1]) }

  /** `(\h\h(?::|-)?){groups}\h\h` matching all of `s`. A separator after a
      pair is always taken, since the next pair cannot start with one. */
  predicate MacFrom(s: string, groups: nat)
    decreases groups
  {
    if groups == 0 then |s| == 2 && HexPair(s)
    else
      HexPair(s) &&
      var rest := s[2..];
      if |rest| > 0 && IsMacSep(rest[0]) then MacFrom(rest[1..], groups - 1) else MacFrom(rest, groups - 1)
  }

  /** The value pattern of `mac`. */
  predicate ValidMac(s: string) { MacFrom(s, 5) }

  function HexCount(s: string): nat {
    if s == [] then 0 else (if IsHex(s[0]) then 1 else 0) + HexCount(s[1..])
  }

  /** Every string the pattern accepts has exactly 2(g+1) hex digits, at most
      one separator per group, and ends in a hex pair. */
  lemma {:induction false} MacFromShape(s: string, g: nat)
    requires MacFrom(s, g)
    ensures HexCount(s) == 2 * (g + 1)
    ensures 2 * (g + 1) <= |s| <= 3 * g + 2
    ensures IsHex(s[|s| - 1]) && IsHex(s[|s| - 2])
  {
    assert s[1..][1..] == s[2..];
    if g == 0 {
      assert s[2..] == [];
    } else {
      var rest := s[2..];
      if |rest| > 0 && IsMacSep(rest[0]) {
        MacFromShape(rest[1..], g - 1);
        assert rest[1..] == rest[1..];
        assert HexCount(rest) == HexCount(rest[1..]);
        assert s[|s| - 1] == rest[1..][|rest[1..]| - 1];
        assert s[|s| - 2] == rest[1..][|rest[1..]| - 2];
      } else {
        MacFromShape(rest, g - 1);
        assert s[|s| - 1] == rest[|rest| - 1];
        assert s[|s| - 2] == rest[|rest| - 2];
      }
    }
  }

  /** An accepted mac has exactly 12 hex digits, is 12 to 17 characters long
      and does not end in a separator. */
  lemma ValidMacShape(s: string)
    requires ValidMac(s)
    ensures HexCount(s) == 12
    ensures 12 <= |s| <= 17
    ensures !IsMacSep(s[|s| - 1])
  {
    MacFromShape(s, 5);
  }

  /** The text of hex pairs `p` joined by the separators `seps`, each of
      which is empty, `:` or `-`. */
  function JoinPairs(p: seq<string>, seps: seq<string>): string
    requires |p| == |seps| + 1
    decreases |seps|
  {
    if seps == [] then p[0] else p[0] + seps[0] + JoinPairs(p[1..], seps[1..])
  }

  predicate Sep(s: string) { s == "" || s == ":" || s == "-" }

  /** A hex pair and a separator in front of an accepted text give an
      accepted text with one more group. */
  lemma MacFromCons(pair: string, sep: string, tail: string, g: nat)
    requires |pair| == 2 && HexPair(pair) && Sep(sep) && MacFrom(tail, g)
    ensures MacFrom(pair + sep + tail, g + 1)
  {
    var s := pair + sep + tail;
    assert HexPair(s) by { assert s[0] == pair[0] && s[1] == pair[1]; }
    var rest := s[2..];
    if sep == "" {
      assert rest == tail;
      MacFromShape(tail, g);
      assert !IsMacSep(rest[0]) by { assert IsHex(tail[0]); }
    } else {
      assert rest == sep + tail;
      assert IsMacSep(rest[0]) && rest[1..] == tail;
    }
  }

  /** Any such joining is accepted: the separators may be mixed and any of
      them may be left out. */
  lemma {:induction false} JoinPairsAccepted(p: seq<string>, seps: seq<string>)
    requires |p| == |seps| + 1
    requires forall k :: 0 <= k < |p| ==> |p[k]| == 2 && HexPair(p[k])
    requires forall k :: 0 <= k < |seps| ==> Sep(seps[k])
    ensures MacFrom(JoinPairs(p, seps), |seps|)
  {
    if seps != [] {
      var tail := JoinPairs(p[1..], seps[1..]);
      assert forall k :: 0 <= k < |p[1..]| ==> p[1..][k] == p[k + 1];
      assert forall k :: 0 <= k < |seps[1..]| ==> seps[1..][k] == seps[k + 1];
      JoinPairsAccepted(p[1..], seps[1..]);
      MacFromCons(p[0], seps[0], tail, |seps| - 1);
    }
  }

  predicate AllPairs(p: seq<string>) { forall k :: 0 <= k < |p| ==> |p[k]| == 2 && HexPair(p[k]) }
  predicate AllSeps(seps: seq<string>) { forall k :: 0 <= k < |seps| ==> Sep(seps[k]) }

  /** Every accepted text is such a joining: its hex pairs and the
      separators between them, read off front to back. */
  function Decompose(s: string, g: nat): (r: (seq<string>, seq<string>))
    requires MacFrom(s, g)
    ensures |r.0| == g + 1 && |r.1| == g && AllPairs(r.0) && AllSeps(r.1)
    ensures JoinPairs(r.0, r.1) == s
    decreases g
  {
    if g == 0 then ([s], [])
    else
      var pair := s[..2];
      var rest := s[2..];
      if |rest| > 0 && IsMacSep(rest[0]) then
        var d := Decompose(rest[1..], g - 1);
        assert s == pair + rest[..1] + rest[1..];
        JoinPairsCons(pair, rest[..1], d.0, d.1);
        PartsCons(pair, rest[..1], d.0, d.1);
        ([pair] + d.0, [rest[..1]] + d.1)
      else
        var d := Decompose(rest, g - 1);
        assert s == pair + "" + rest;
        JoinPairsCons(pair, "", d.0, d.1);
        PartsCons(pair, "", d.0, d.1);
        ([pair] + d.0, [""] + d.1)
  }

  lemma PartsCons(pair: string, sep: string, p: seq<string>, seps: seq<string>)
    requires |pair| == 2 && HexPair(pair) && Sep(sep) && AllPairs(p) && AllSeps(seps)
    ensures AllPairs([pair] + p) && AllSeps([sep] + seps)
  {
  }

  lemma JoinPairsCons(pair: string, sep: string, p: seq<string>, seps: seq<string>)
    requires |p| == |seps| + 1
    ensures JoinPairs([pair] + p, [sep] + seps) == pair + sep + JoinPairs(p, seps)
  {
    assert ([pair] + p)[1..] == p && ([sep] + seps)[1..] == seps;
  }

  /** The pattern with `g` groups accepts exactly the g+1 hex pairs joined
      by g separators. */
  lemma MacFromIff(s: string, g: nat)
    ensures MacFrom(s, g) <==>
      exists p, seps :: |p| == g + 1 && |seps| == g && AllPairs(p) && AllSeps(seps) && s == JoinPairs(p, seps)
  {
    if MacFrom(s, g) {
      var d := Decompose(s, g);
      assert |d.0| == g + 1 && |d.1| == g && AllPairs(d.0) && AllSeps(d.1) && s == JoinPairs(d.0, d.1);
    }
    forall p, seps | |p| == g + 1 && |seps| == g && AllPairs(p) && AllSeps(seps) && s == JoinPairs(p, seps)
      ensures MacFrom(s, g)
    {
      JoinPairsAccepted(p, seps);
    }
  }

  /** The mac pattern accepts exactly the six hex pairs joined by five
      separators, each empty, `:` or `-`. */
  lemma ValidMacIff(s: string)
    ensures ValidMac(s) <==>
      exists p, seps :: |p| == 6 && |seps| == 5 && AllPairs(p) && AllSeps(seps) && s == JoinPairs(p, seps)
  {
    MacFromIff(s, 5);
  }

  const ZeroPairs: seq<string> := ["00", "00", "00", "00", "00", "00"]

  lemma ZeroPairsHex()
    ensures forall k :: 0 <= k < |ZeroPairs| ==> |ZeroPairs[k]| == 2 && HexPair(ZeroPairs[k])
  {
  }

  const ColonSeps: seq<string> := [":", ":", ":", ":", ":"]

  lemma ColonJoin()
    ensures JoinPairs(ZeroPairs, ColonSeps) == "00:00:00:00:00:00"
  {
  }

  lemma ColonExample()
    ensures ValidMac("00:00:00:00:00:00")
  {
    ZeroPairsHex();
    JoinPairsAccepted(ZeroPairs, ColonSeps);
    ColonJoin();
  }

  const DashSeps: seq<string> := ["-", "-", "-", "-", "-"]

  lemma DashJoin()
    ensures JoinPairs(ZeroPairs, DashSeps) == "00-00-00-00-00-00"
  {
  }

  lemma DashExample()
    ensures ValidMac("00-00-00-00-00-00")
  {
    ZeroPairsHex();
    JoinPairsAccepted(ZeroPairs, DashSeps);
    DashJoin();
  }

  const BareSeps: seq<string> := ["", "", "", "", ""]

  lemma BareJoin()
    ensures JoinPairs(ZeroPairs, BareSeps) == "000000000000"
  {
  }

  lemma BareExample()
    ensures ValidMac("000000000000")
  {
    ZeroPairsHex();
    JoinPairsAccepted(ZeroPairs, BareSeps);
    BareJoin();
  }

  const MixedSeps: seq<string> := [":", "-", ":", "-", ":"]

  lemma MixedJoin()
    ensures JoinPairs(ZeroPairs, MixedSeps) == "00:00-00:00-00:00"
  {
  }

  lemma MixedExample()
    ensures ValidMac("00:00-00:00-00:00")
  {
    ZeroPairsHex();
    JoinPairsAccepted(ZeroPairs, MixedSeps);
    MixedJoin();
  }

  lemma RejectedExamples()
    ensures !ValidMac("G00000000000")
    ensures !ValidMac("")
    ensures !ValidMac("00:00:00:00:00:00:")
  {
    if ValidMac("00:00:00:00:00:00:") { ValidMacShape("00:00:00:00:00:00:"); }
  }
}
