/**
 * The IPv6 text grammar of IPParser (the twelve alternatives of its pattern),
 * the conversion of accepted text to sixteen octets, and the rendering of
 * sixteen octets as eight colon-separated hexadecimal groups.
 *
 * Every alternative is a sequence of "hextet then colon" units, "colon then
 * hextet" units, literal pieces and an optional embedded IPv4 address. The
 * recognisers read those units one at a time from the left; because a unit of
 * one kind never starts the way whatever may follow the run starts, there is
 * only one way to split an accepted string, and the recognisers take it.
 */
module IPv6Text {
  import opened Numerals
  import opened BigEndian
  import opened Results
  import IPv4Text

  /** A hextet as written: one to four hexadecimal digits of either case. */
  predicate IsHextet(t: string) { 1 <= |t| <= 4 && AllHexDigits(t) }

  predicate AllHextets(ts: seq<string>) { forall i | 0 <= i < |ts| :: IsHextet(ts[i]) }

  predicate IsAlphanumeric(c: char) { IsDigit(c) || 'a' <= c <= 'z' || 'A' <= c <= 'Z' }

  /** Number of leading hexadecimal digits of s. */
  function HexRun(s: string): (n: nat)
    ensures n <= |s|
    ensures forall i | 0 <= i < n :: IsHexDigit(s[i])
    ensures n < |s| ==> !IsHexDigit(s[n])
  {
    if |s| == 0 || !IsHexDigit(s[0]) then 0 else 1 + HexRun(s[1..])
  }

  /** The hextets of the longest leading run "(H:)*", and the text after it. */
  function HeadUnits(s: string): (r: (seq<string>, string))
    ensures AllHextets(r.0)
    ensures |r.0| >= 1 ==> ':' in s
    decreases |s|
  {
    var k := HexRun(s);
    if 1 <= k <= 4 && k < |s| && s[k] == ':' then
      var (hs, rest) := HeadUnits(s[k + 1..]);
      ([s[..k]] + hs, rest)
    else ([], s)
  }

  /** The hextets of the longest leading run "(:H)*", and the text after it. */
  function TailUnits(s: string): (r: (seq<string>, string))
    ensures AllHextets(r.0)
    decreases |s|
  {
    if |s| >= 1 && s[0] == ':' && 1 <= HexRun(s[1..]) <= 4 then
      var k := HexRun(s[1..]);
      var (hs, rest) := TailUnits(s[k + 1..]);
      ([s[1..k + 1]] + hs, rest)
    else ([], s)
  }

  /**
   * The hextets written before and after "::", when s is "(H:){L}:" or
   * "(H:){L}(:H){R}" with L, R >= 1, or ":" followed by ":" or by "(:H){R}"
   * (L = 0).
   */
  function Elision(s: string): (e: Option<(seq<string>, seq<string>)>)
    ensures e.Some? ==> AllHextets(e.value.0) && AllHextets(e.value.1)
  {
    var (head, rest) := HeadUnits(s);
    if |head| == 0 && (|s| == 0 || s[0] != ':') then None
    else
      var after := if |head| == 0 then s[1..] else rest;
      if after == ":" then Some((head, []))
      else
        var (tail, end) := TailUnits(after);
        if |tail| >= 1 && end == "" then Some((head, tail)) else None
  }

  /** An elided form with the given bounds on the hextets before and after "::". */
  predicate ElidedWithin(s: string, minHead: nat, maxHead: nat, minTail: nat, maxTail: nat)
  {
    var e := Elision(s);
    e.Some? && minHead <= |e.value.0| <= maxHead && minTail <= |e.value.1| <= maxTail
  }

  /** (H:){7}H: eight hextets, nothing elided. */
  predicate FullForm(s: string)
  {
    var (head, rest) := HeadUnits(s);
    |head| == 7 && IsHextet(rest)
  }

  /** fe80:(:H){0,4}%[0-9a-zA-Z]+ : a link-local address with a zone index. */
  predicate LinkLocalWithZone(s: string)
  {
    var (head, rest) := HeadUnits(s);
    var (tail, end) := TailUnits(rest);
    && |head| == 1 && head[0] == "fe80"
    && |tail| <= 4
    && |end| >= 2 && end[0] == '%'
    && forall i | 1 <= i < |end| :: IsAlphanumeric(end[i])
  }

  /** Number of leading '0' characters of s. */
  function ZeroRun(s: string): (n: nat)
    ensures n <= |s|
    ensures forall i | 0 <= i < n :: s[i] == '0'
    ensures n < |s| ==> s[n] != '0'
  {
    if |s| == 0 || s[0] != '0' then 0 else 1 + ZeroRun(s[1..])
  }

  /** 0{1,4}: followed by an IPv4 address. */
  predicate ZerosThenIPv4(u: string)
  {
    var z := ZeroRun(u);
    1 <= z <= 4 && z < |u| && u[z] == ':' && IPv4Text.IsIPv4Address(u[z + 1..])
  }

  /** What may follow the leading "::" of an IPv4-mapped or -translated address. */
  predicate MappedSuffix(t: string)
  {
    || IPv4Text.IsIPv4Address(t)
    || (|t| >= 5 && t[..5] == "ffff:" && IPv4Text.IsIPv4Address(t[5..]))
    || (|t| >= 5 && t[..5] == "ffff:" && ZerosThenIPv4(t[5..]))
  }

  /** ::(ffff(:0{1,4}){0,1}:){0,1} followed by an IPv4 address. */
  predicate MappedIPv4(s: string)
  {
    |s| >= 2 && s[..2] == "::" && MappedSuffix(s[2..])
  }

  /** (H:){1,4}: followed by an IPv4 address. */
  predicate EmbeddedIPv4(s: string)
  {
    var (head, rest) := HeadUnits(s);
    1 <= |head| <= 4 && |rest| >= 1 && rest[0] == ':' && IPv4Text.IsIPv4Address(rest[1..])
  }

  /** The whole-string IPv6 grammar: one of the twelve alternatives, in the source's order. */
  predicate IsIPv6Address(s: string)
  {
    || FullForm(s)                    // (H:){7}H
    || ElidedWithin(s, 1, 7, 0, 0)    // (H:){1,7}:
    || ElidedWithin(s, 1, 6, 1, 1)    // (H:){1,6}:H
    || ElidedWithin(s, 1, 5, 1, 2)    // (H:){1,5}(:H){1,2}
    || ElidedWithin(s, 1, 4, 1, 3)    // (H:){1,4}(:H){1,3}
    || ElidedWithin(s, 1, 3, 1, 4)    // (H:){1,3}(:H){1,4}
    || ElidedWithin(s, 1, 2, 1, 5)    // (H:){1,2}(:H){1,5}
    || ElidedWithin(s, 1, 1, 1, 6)    // H:((:H){1,6})
    || ElidedWithin(s, 0, 0, 0, 7)    // :((:H){1,7}|:)
    || LinkLocalWithZone(s)
    || MappedIPv4(s)
    || EmbeddedIPv4(s)
  }

  /** An elision that leaves room for at least one zero group. */
  predicate ElidedForm(s: string)
  {
    var e := Elision(s);
    e.Some? && |e.value.0| + |e.value.1| <= 7
  }

  /**
   * The eight elided alternatives together accept exactly the strings with one
   * "::" and at most seven explicit hextets around it, each of one to four
   * hexadecimal digits; so "::" always stands for at least one zero group.
   */
  lemma ElidedAlternatives(s: string)
    ensures
      (|| ElidedWithin(s, 1, 7, 0, 0) || ElidedWithin(s, 1, 6, 1, 1) || ElidedWithin(s, 1, 5, 1, 2)
       || ElidedWithin(s, 1, 4, 1, 3) || ElidedWithin(s, 1, 3, 1, 4) || ElidedWithin(s, 1, 2, 1, 5)
       || ElidedWithin(s, 1, 1, 1, 6) || ElidedWithin(s, 0, 0, 0, 7))
      <==> ElidedForm(s)
  {
  }

  /** A text that fits none of the alternative families is not an IPv6 address. */
  lemma NoAlternative(s: string)
    requires !FullForm(s) && !LinkLocalWithZone(s) && Elision(s).None?
    requires !MappedIPv4(s) && !EmbeddedIPv4(s)
    ensures !IsIPv6Address(s)
  {
  }

  function HextetValue(t: string): (v: nat)
    requires IsHextet(t)
    ensures v < 0x10000
  {
    HexValueBound(t);
    HexValue(t)
  }

  function HextetValues(ts: seq<string>): (vs: seq<nat>)
    requires AllHextets(ts)
    ensures |vs| == |ts|
    ensures forall i | 0 <= i < |vs| :: vs[i] < 0x10000 && vs[i] == HextetValue(ts[i])
  {
    seq(|ts|, i requires 0 <= i < |ts| => HextetValue(ts[i]))
  }

  function Zeros(n: nat): (z: seq<nat>)
    ensures |z| == n && forall i | 0 <= i < n :: z[i] == 0
  {
    seq(n, _ => 0)
  }

  /** The two 16-bit groups an embedded IPv4 address stands for. */
  function IPv4Groups(t: string): (g: seq<nat>)
    requires IPv4Text.IsIPv4Address(t)
    ensures |g| == 2 && g[0] < 0x10000 && g[1] < 0x10000
  {
    var b := IPv4Text.Octets(t);
    [b[0] as int * 256 + b[1], b[2] as int * 256 + b[3]]
  }

  function FullGroups(s: string): (g: seq<nat>)
    requires FullForm(s)
    ensures |g| == 8 && forall i | 0 <= i < 8 :: g[i] < 0x10000
  {
    var (head, rest) := HeadUnits(s);
    HextetValues(head) + [HextetValue(rest)]
  }

  function ElidedGroups(s: string): (g: seq<nat>)
    requires ElidedForm(s)
    ensures |g| == 8 && forall i | 0 <= i < 8 :: g[i] < 0x10000
  {
    var (head, tail) := Elision(s).value;
    HextetValues(head) + Zeros(8 - |head| - |tail|) + HextetValues(tail)
  }

  function LinkLocalGroups(s: string): (g: Option<seq<nat>>)
    requires LinkLocalWithZone(s)
    ensures g.Some? ==> |g.value| == 8 && forall i | 0 <= i < 8 :: g.value[i] < 0x10000
  {
    var (tail, _) := TailUnits(HeadUnits(s).1);
    if |tail| == 0 then None else Some([0xfe80] + Zeros(7 - |tail|) + HextetValues(tail))
  }

  function MappedGroups(s: string): (g: seq<nat>)
    requires MappedIPv4(s)
    ensures |g| == 8 && forall i | 0 <= i < 8 :: g[i] < 0x10000
  {
    var t := s[2..];
    if IPv4Text.IsIPv4Address(t) then Zeros(6) + IPv4Groups(t)
    else if IPv4Text.IsIPv4Address(t[5..]) then Zeros(5) + [0xffff] + IPv4Groups(t[5..])
    else
      var u := t[5..];
      Zeros(4) + [0xffff, 0] + IPv4Groups(u[ZeroRun(u) + 1..])
  }

  function EmbeddedGroups(s: string): (g: seq<nat>)
    requires EmbeddedIPv4(s)
    ensures |g| == 8 && forall i | 0 <= i < 8 :: g[i] < 0x10000
  {
    var (head, rest) := HeadUnits(s);
    HextetValues(head) + Zeros(6 - |head|) + IPv4Groups(rest[1..])
  }

  /**
   * The eight 16-bit groups an accepted text stands for: explicit hextets in
   * place, "::" filled with zero groups, an embedded IPv4 address as the last two
   * groups, a zone index dropped. "fe80:%zone" matches the grammar but writes no
   * hextet after "fe80:" and stands for no address: None.
   */
  function Groups(s: string): (g: Option<seq<nat>>)
    requires IsIPv6Address(s)
    ensures g.Some? ==> |g.value| == 8 && forall i | 0 <= i < 8 :: g.value[i] < 0x10000
  {
    ElidedAlternatives(s);
    if FullForm(s) then Some(FullGroups(s))
    else if ElidedForm(s) then Some(ElidedGroups(s))
    else if LinkLocalWithZone(s) then LinkLocalGroups(s)
    else if MappedIPv4(s) then Some(MappedGroups(s))
    else Some(EmbeddedGroups(s))
  }

  /** Each group as two big-endian octets. */
  function GroupOctets(groups: seq<nat>): (b: seq<Byte>)
    requires forall i | 0 <= i < |groups| :: groups[i] < 0x10000
    ensures |b| == 2 * |groups|
  {
    if |groups| == 0 then [] else [groups[0] / 256, groups[0] % 256] + GroupOctets(groups[1..])
  }

  /** Consecutive pairs of octets as 16-bit groups. */
  function OctetGroups(b: seq<Byte>): (groups: seq<nat>)
    requires |b| % 2 == 0
    ensures |groups| == |b| / 2
    ensures forall i | 0 <= i < |groups| :: groups[i] < 0x10000
  {
    if |b| == 0 then [] else [b[0] as int * 256 + b[1]] + OctetGroups(b[2..])
  }

  lemma {:induction false} GroupOctetsRoundTrip(b: seq<Byte>)
    requires |b| % 2 == 0
    ensures GroupOctets(OctetGroups(b)) == b
  {
    if |b| > 0 {
      GroupOctetsRoundTrip(b[2..]);
      assert [b[0], b[1]] + b[2..] == b;
    }
  }

  /** The sixteen octets an accepted text stands for, when it stands for an address. */
  function Octets(s: string): (b: Option<seq<Byte>>)
    requires IsIPv6Address(s)
    ensures b.Some? <==> Groups(s).Some?
    ensures b.Some? ==> |b.value| == 16
  {
    match Groups(s)
    case Some(groups) => Some(GroupOctets(groups))
    case None => None
  }

  /**
   * Eight lower-case hexadecimal groups without leading zeros, separated by
   * colons and never compressed with "::" (what Inet6Address.getHostAddress prints).
   */
  function Render(b: seq<Byte>): string
    requires |b| == 16
  {
    var groups := OctetGroups(b);
    Join(seq(8, i requires 0 <= i < 8 => HexText(groups[i])), ':')
  }

  lemma HexRunOfHextets(t: string, rest: string)
    requires AllHexDigits(t)
    requires |rest| == 0 || !IsHexDigit(rest[0])
    ensures HexRun(t + rest) == |t|
  {
    var s := t + rest;
    assert forall i | 0 <= i < |t| :: s[i] == t[i];
    assert |rest| > 0 ==> s[|t|] == rest[0];
  }

  /** A hextet and a colon in front of any text form one head unit. */
  lemma HeadUnitsStep(first: string, rest: string)
    requires IsHextet(first)
    ensures HeadUnits(first + [':'] + rest) == ([first] + HeadUnits(rest).0, HeadUnits(rest).1)
  {
    var s := first + [':'] + rest;
    HexRunOfHextets(first, [':'] + rest);
    assert s == first + ([':'] + rest);
    assert s[..|first|] == first && s[|first|] == ':' && s[|first| + 1..] == rest;
  }

  /** A hextet of k digits followed by a colon, at the front of s, is its first head unit. */
  lemma HeadUnitsAt(s: string, k: nat)
    requires 1 <= k < |s| && s[k] == ':' && IsHextet(s[..k])
    ensures HeadUnits(s) == ([s[..k]] + HeadUnits(s[k + 1..]).0, HeadUnits(s[k + 1..]).1)
  {
    HexRunOfHextets(s[..k], s[k..]);
    assert s[..k] + s[k..] == s;
  }

  /** A lone hextet holds no head unit. */
  lemma HeadUnitsOfHextet(t: string)
    requires IsHextet(t)
    ensures HeadUnits(t) == ([], t)
  {
    HexRunOfHextets(t, "");
    assert t + "" == t;
  }

  /** Reading a colon-joined run of hextets takes all but the last as head units. */
  lemma {:induction false} HeadUnitsOfJoin(texts: seq<string>)
    requires |texts| >= 1 && AllHextets(texts)
    ensures HeadUnits(Join(texts, ':')) == (texts[..|texts| - 1], texts[|texts| - 1])
  {
    if |texts| == 1 {
      HeadUnitsOfHextet(texts[0]);
    } else {
      var tail := texts[1..];
      assert [texts[0]] + tail[..|tail| - 1] == texts[..|texts| - 1];
      assert tail[|tail| - 1] == texts[|texts| - 1];
      assert AllHextets(tail);
      HeadUnitsOfJoin(tail);
      HeadUnitsStep(texts[0], Join(tail, ':'));
      assert Join(texts, ':') == texts[0] + [':'] + Join(tail, ':');
    }
  }

  /** Every rendering is a full-form address that converts back to the same octets. */
  lemma RenderRoundTrip(b: seq<Byte>)
    requires |b| == 16
    ensures FullForm(Render(b)) && IsIPv6Address(Render(b))
    ensures Octets(Render(b)) == Some(b)
  {
    var groups := OctetGroups(b);
    var texts := seq(8, i requires 0 <= i < 8 => HexText(groups[i]));
    forall i | 0 <= i < 8
      ensures IsHextet(texts[i]) && HextetValue(texts[i]) == groups[i]
    {
      HexTextRoundTrip(groups[i]);
    }
    HeadUnitsOfJoin(texts);
    var s := Render(b);
    assert HextetValues(texts[..7]) + [HextetValue(texts[7])] == groups;
    GroupOctetsRoundTrip(b);
  }

  /** Every accepted IPv6 text contains a colon. */
  lemma HasColon(s: string)
    requires IsIPv6Address(s)
    ensures ':' in s
  {
    ElidedAlternatives(s);
    if ElidedForm(s) && |HeadUnits(s).0| == 0 {
      assert s[0] == ':';
    } else if MappedIPv4(s) {
      assert s[0] == s[..2][0];
    }
  }

  // ---------------------------------------------------------------------------
  // Accepted text written from its parts

  /** Head units written out: each hextet followed by a colon. */
  function HeadText(hs: seq<string>): string
  {
    if |hs| == 0 then "" else hs[0] + ":" + HeadText(hs[1..])
  }

  /** Tail units written out: each hextet preceded by a colon. */
  function TailText(ts: seq<string>): string
  {
    if |ts| == 0 then "" else ":" + ts[0] + TailText(ts[1..])
  }

  /** Text made of colons and hexadecimal digits only. */
  predicate ColonsAndHexDigits(s: string)
  {
    forall i | 0 <= i < |s| :: s[i] == ':' || IsHexDigit(s[i])
  }

  lemma HeadTextCons(h: string, hs: seq<string>)
    ensures HeadText([h] + hs) == h + ":" + HeadText(hs)
  {
    assert ([h] + hs)[1..] == hs;
  }

  lemma TailTextCons(t: string, ts: seq<string>)
    ensures TailText([t] + ts) == ":" + t + TailText(ts)
  {
    assert ([t] + ts)[1..] == ts;
  }

  lemma ConsConcat(xs: seq<string>, ys: seq<string>)
    requires |xs| > 0
    ensures [xs[0]] + (xs[1..] + ys) == xs + ys
  {
  }

  /** A text that starts with p is p followed by the rest. */
  lemma AfterPrefix(s: string, p: string)
    requires |p| <= |s| && s[..|p|] == p
    ensures s == p + s[|p|..]
  {
  }

  /** s is what comes before index k, the character there, and what comes after. */
  lemma AroundIndex(s: string, k: nat)
    requires k < |s|
    ensures s == s[..k] + [s[k]] + s[k + 1..]
  {
  }

  /** HeadUnits reads s as its head units written out, then the rest. */
  lemma {:induction false} HeadUnitsSplit(s: string)
    ensures HeadText(HeadUnits(s).0) + HeadUnits(s).1 == s
    decreases |s|
  {
    var k := HexRun(s);
    if 1 <= k <= 4 && k < |s| && s[k] == ':' {
      var later := s[k + 1..];
      HeadUnitsSplit(later);
      var (hs, rest) := HeadUnits(later);
      assert IsHextet(s[..k]);
      HeadUnitsAt(s, k);
      HeadTextCons(s[..k], hs);
      AroundIndex(s, k);
    }
  }

  /** TailUnits reads s as its tail units written out, then the rest. */
  lemma {:induction false} TailUnitsSplit(s: string)
    ensures TailText(TailUnits(s).0) + TailUnits(s).1 == s
    decreases |s|
  {
    if |s| >= 1 && s[0] == ':' && 1 <= HexRun(s[1..]) <= 4 {
      var k := HexRun(s[1..]);
      var later := s[k + 1..];
      TailUnitsSplit(later);
      var (ts, rest) := TailUnits(later);
      TailUnitsAt(s);
      TailTextCons(s[1..k + 1], ts);
      ColonFirst(s, k + 1);
    }
  }

  /** A colon and one to four hexadecimal digits at the front of s form its first tail unit. */
  lemma TailUnitsAt(s: string)
    requires |s| >= 1 && s[0] == ':' && 1 <= HexRun(s[1..]) <= 4
    ensures var k := HexRun(s[1..]);
      TailUnits(s) == ([s[1..k + 1]] + TailUnits(s[k + 1..]).0, TailUnits(s[k + 1..]).1)
  {
  }

  /** Text starting with a colon is that colon, the next characters up to k, and the rest. */
  lemma ColonFirst(s: string, k: nat)
    requires 1 <= k <= |s| && s[0] == ':'
    ensures s == ":" + s[1..k] + s[k..]
  {
    assert s == s[..1] + s[1..k] + s[k..];
  }

  /** The first head unit written out, then the others and whatever follows. */
  lemma HeadTextFirst(hs: seq<string>, rest: string)
    requires |hs| > 0
    ensures HeadText(hs) + rest == hs[0] + [':'] + (HeadText(hs[1..]) + rest)
  {
    assert ":" == [':'];
  }

  /** The first tail unit written out, then the others and whatever follows. */
  lemma TailTextFirst(ts: seq<string>, rest: string)
    requires |ts| > 0
    ensures TailText(ts) + rest == ":" + ts[0] + (TailText(ts[1..]) + rest)
  {
    assert ":" == [':'];
  }

  /** Written-out head units are read back as the same units, then whatever follows is read. */
  lemma {:induction false} HeadTextUnits(hs: seq<string>, rest: string)
    requires AllHextets(hs)
    ensures HeadUnits(HeadText(hs) + rest) == (hs + HeadUnits(rest).0, HeadUnits(rest).1)
  {
    if |hs| > 0 {
      var later := HeadText(hs[1..]) + rest;
      assert AllHextets(hs[1..]);
      HeadTextUnits(hs[1..], rest);
      HeadUnitsStep(hs[0], later);
      HeadTextFirst(hs, rest);
      ConsConcat(hs, HeadUnits(rest).0);
    } else {
      assert HeadText(hs) + rest == rest && hs + HeadUnits(rest).0 == HeadUnits(rest).0;
    }
  }

  /** A colon, a hextet, and text that does not go on with a hexadecimal digit form one tail unit. */
  lemma TailUnitsStep(first: string, rest: string)
    requires IsHextet(first)
    requires |rest| == 0 || !IsHexDigit(rest[0])
    ensures TailUnits(":" + first + rest) == ([first] + TailUnits(rest).0, TailUnits(rest).1)
  {
    var s := ":" + first + rest;
    HexRunOfHextets(first, rest);
    assert s[1..] == first + rest;
    assert s[1..|first| + 1] == first && s[|first| + 1..] == rest;
  }

  /** Written-out tail units are read back as the same units, then whatever follows is read. */
  lemma {:induction false} TailTextUnits(ts: seq<string>, rest: string)
    requires AllHextets(ts)
    requires |rest| == 0 || !IsHexDigit(rest[0])
    ensures TailUnits(TailText(ts) + rest) == (ts + TailUnits(rest).0, TailUnits(rest).1)
  {
    if |ts| > 0 {
      var more := ts[1..];
      var later := TailText(more) + rest;
      assert AllHextets(more);
      TailTextUnits(more, rest);
      TailTextFirst(ts, rest);
      if |more| > 0 {
        TailTextFirst(more, rest);
      } else {
        assert later == rest;
      }
      TailUnitsStep(ts[0], later);
      ConsConcat(ts, TailUnits(rest).0);
    } else {
      assert TailText(ts) + rest == rest && ts + TailUnits(rest).0 == TailUnits(rest).0;
    }
  }

  /** Colon-joined hextets followed by a colon are those hextets as head units. */
  lemma {:induction false} JoinHeadText(hs: seq<string>)
    requires |hs| >= 1
    ensures Join(hs, ':') + ":" == HeadText(hs)
  {
    if |hs| > 1 {
      JoinHeadText(hs[1..]);
      assert Join(hs, ':') == hs[0] + [':'] + Join(hs[1..], ':');
    } else {
      assert HeadText(hs[1..]) == "";
    }
  }

  /** A colon followed by colon-joined hextets is those hextets as tail units. */
  lemma {:induction false} JoinTailText(ts: seq<string>)
    requires |ts| >= 1
    ensures ":" + Join(ts, ':') == TailText(ts)
  {
    if |ts| > 1 {
      var j := Join(ts[1..], ':');
      JoinTailText(ts[1..]);
      assert Join(ts, ':') == ts[0] + [':'] + j;
      assert ":" + Join(ts, ':') == ":" + ts[0] + (":" + j);
    } else {
      assert TailText(ts[1..]) == "";
    }
  }

  /** Written-out head units: colons and digits only, starting with a digit and ending with a colon. */
  lemma {:induction false} HeadTextShape(hs: seq<string>)
    requires AllHextets(hs)
    ensures ColonsAndHexDigits(HeadText(hs))
    ensures |hs| > 0 ==> IsHexDigit(HeadText(hs)[0]) && HeadText(hs)[|HeadText(hs)| - 1] == ':'
    ensures DoubleColons(HeadText(hs)) == 0
  {
    if |hs| > 0 {
      var later := HeadText(hs[1..]);
      assert AllHextets(hs[1..]);
      HeadTextShape(hs[1..]);
      assert HeadText(hs) == hs[0] + (":" + later);
      DoubleColonsWithoutColon(hs[0]);
      DoubleColonsConcat(":", later);
      DoubleColonsConcat(hs[0], ":" + later);
    }
  }

  /** Written-out tail units: colons and digits only, starting with a colon and ending with a digit. */
  lemma {:induction false} TailTextShape(ts: seq<string>)
    requires AllHextets(ts)
    ensures ColonsAndHexDigits(TailText(ts))
    ensures |ts| > 0 ==> TailText(ts)[0] == ':' && IsHexDigit(TailText(ts)[|TailText(ts)| - 1])
    ensures DoubleColons(TailText(ts)) == 0
  {
    TailTextChars(ts);
    TailTextDoubleColons(ts);
  }

  /** The characters of written-out tail units. */
  lemma {:induction false} TailTextChars(ts: seq<string>)
    requires AllHextets(ts)
    ensures ColonsAndHexDigits(TailText(ts))
    ensures |ts| > 0 ==> TailText(ts)[0] == ':' && IsHexDigit(TailText(ts)[|TailText(ts)| - 1])
  {
    if |ts| > 0 {
      assert AllHextets(ts[1..]);
      TailTextChars(ts[1..]);
      assert TailText(ts) == ":" + (ts[0] + TailText(ts[1..]));
    }
  }

  /** Written-out tail units hold no "::". */
  lemma {:induction false} TailTextDoubleColons(ts: seq<string>)
    requires AllHextets(ts)
    ensures DoubleColons(TailText(ts)) == 0
  {
    if |ts| > 0 {
      var later := TailText(ts[1..]);
      assert AllHextets(ts[1..]);
      TailTextDoubleColons(ts[1..]);
      assert TailText(ts) == ":" + (ts[0] + later);
      DoubleColonsWithoutColon(ts[0]);
      DoubleColonsConcat(ts[0], later);
      DoubleColonsConcat(":", ts[0] + later);
    }
  }

  /**
   * Tail units stop before a character that is neither a colon nor a digit, so
   * the text left over is not empty and starts at or before that character.
   */
  lemma TailUnitsStopBefore(s: string, j: nat)
    requires j < |s| && s[j] != ':' && !IsHexDigit(s[j])
    ensures var end := TailUnits(s).1;
      end != "" && end[0] in s
  {
    var (ts, end) := TailUnits(s);
    TailUnitsSplit(s);
    TailTextShape(ts);
    assert |TailText(ts)| <= j;
    assert end[0] == s[|TailText(ts)|];
  }

  // ---------------------------------------------------------------------------
  // At most one "::"

  /** s holds "::" starting at index i. */
  predicate DoubleColonAt(s: string, i: int)
  {
    0 <= i && i + 1 < |s| && s[i] == ':' && s[i + 1] == ':'
  }

  /** The number of indices at which "::" starts in s (":::" counts twice). */
  function DoubleColons(s: string): nat
    decreases |s|
  {
    if |s| < 2 then 0 else (if s[0] == ':' && s[1] == ':' then 1 else 0) + DoubleColons(s[1..])
  }

  /** 1 when a ends and b starts with a colon: the "::" that joining them creates. */
  function Junction(a: string, b: string): nat
  {
    if |a| > 0 && |b| > 0 && a[|a| - 1] == ':' && b[0] == ':' then 1 else 0
  }

  lemma {:induction false} DoubleColonsConcat(a: string, b: string)
    ensures DoubleColons(a + b) == DoubleColons(a) + DoubleColons(b) + Junction(a, b)
    decreases |a|
  {
    if |a| == 0 {
      assert a + b == b;
    } else if |a| == 1 {
      assert (a + b)[1..] == b;
    } else {
      DoubleColonsConcat(a[1..], b);
      var first := if a[0] == ':' && a[1] == ':' then 1 else 0;
      assert (a + b)[1..] == a[1..] + b;
      assert (a + b)[0] == a[0] && (a + b)[1] == a[1];
      assert DoubleColons(a + b) == first + DoubleColons(a[1..] + b);
      assert DoubleColons(a) == first + DoubleColons(a[1..]);
      assert Junction(a[1..], b) == Junction(a, b) by {
        assert a[1..][|a| - 2] == a[|a| - 1];
      }
    }
  }

  lemma {:induction false} DoubleColonsWithoutColon(s: string)
    requires ':' !in s
    ensures DoubleColons(s) == 0
    decreases |s|
  {
    if |s| >= 2 {
      assert s[1..] == s[1..] && ':' !in s[1..] by {
        assert forall c | c in s[1..] :: c in s;
      }
      DoubleColonsWithoutColon(s[1..]);
    }
  }

  /** A "::" anywhere is counted. */
  lemma {:induction false} DoubleColonCounted(s: string, i: int)
    requires DoubleColonAt(s, i)
    ensures DoubleColons(s) >= 1
    decreases i
  {
    if i > 0 {
      assert DoubleColonAt(s[1..], i - 1);
      DoubleColonCounted(s[1..], i - 1);
    }
  }

  /** Two "::" at different indices are both counted. */
  lemma {:induction false} DoubleColonsCounted(s: string, i: int, j: int)
    requires DoubleColonAt(s, i) && DoubleColonAt(s, j) && i < j
    ensures DoubleColons(s) >= 2
    decreases i
  {
    assert DoubleColonAt(s[1..], j - 1);
    if i == 0 {
      DoubleColonCounted(s[1..], j - 1);
    } else {
      assert DoubleColonAt(s[1..], i - 1);
      DoubleColonsCounted(s[1..], i - 1, j - 1);
    }
  }

  /** The full form has no "::". */
  lemma FullFormDoubleColons(s: string)
    requires FullForm(s)
    ensures DoubleColons(s) == 0
  {
    var (head, rest) := HeadUnits(s);
    HeadUnitsSplit(s);
    HeadTextShape(head);
    assert ':' !in rest;
    DoubleColonsWithoutColon(rest);
    DoubleColonsConcat(HeadText(head), rest);
  }

  /** What follows the "::" of an elided form: a lone colon or written-out tail units. */
  lemma ElidedAfterShape(after: string)
    requires after == ":" || (|TailUnits(after).0| >= 1 && TailUnits(after).1 == "")
    ensures |after| >= 1 && after[0] == ':' && DoubleColons(after) == 0
  {
    if after != ":" {
      var ts := TailUnits(after).0;
      TailUnitsSplit(after);
      TailTextShape(ts);
      assert after == TailText(ts);
    }
  }

  /** An elided form has exactly one "::". */
  lemma ElidedDoubleColons(s: string)
    requires Elision(s).Some?
    ensures DoubleColons(s) == 1
  {
    var (head, rest) := HeadUnits(s);
    var after := if |head| == 0 then s[1..] else rest;
    ElidedAfterShape(after);
    if |head| == 0 {
      assert s == ":" + after;
      DoubleColonsConcat(":", after);
    } else {
      HeadUnitsSplit(s);
      HeadTextShape(head);
      DoubleColonsConcat(HeadText(head), after);
    }
  }

  /** A link-local address with a zone has at most one "::" (the one after fe80:). */
  lemma LinkLocalDoubleColons(s: string)
    requires LinkLocalWithZone(s)
    ensures DoubleColons(s) <= 1
  {
    var (head, rest) := HeadUnits(s);
    var (tail, end) := TailUnits(rest);
    HeadUnitsSplit(s);
    HeadTextShape(head);
    TailUnitsSplit(rest);
    TailTextShape(tail);
    assert ':' !in end by {
      assert forall i | 1 <= i < |end| :: IsAlphanumeric(end[i]);
    }
    DoubleColonsWithoutColon(end);
    DoubleColonsConcat(TailText(tail), end);
    DoubleColonsConcat(HeadText(head), rest);
  }

  /** What follows the leading "::" of a mapped address has no "::" and does not start with a colon. */
  lemma MappedSuffixShape(t: string)
    requires MappedSuffix(t)
    ensures DoubleColons(t) == 0 && (|t| > 0 ==> t[0] != ':')
  {
    if IPv4Text.IsIPv4Address(t) {
      IPv4Text.Alphabet(t);
      DoubleColonsWithoutColon(t);
    } else {
      var u := t[5..];
      FfffDoubleColons(t);
      if IPv4Text.IsIPv4Address(u) {
        IPv4Text.Alphabet(u);
        DoubleColonsWithoutColon(u);
      } else {
        ZerosThenIPv4Shape(u);
      }
    }
  }

  /** "ffff:" in front of u adds a "::" exactly when u starts with a colon. */
  lemma FfffDoubleColons(t: string)
    requires |t| >= 5 && t[..5] == "ffff:"
    ensures DoubleColons(t) == DoubleColons(t[5..]) + Junction("ffff:", t[5..])
  {
    AfterPrefix(t, "ffff:");
    DoubleColonsWithoutColon("ffff");
    DoubleColonsConcat("ffff", ":");
    assert "ffff" + ":" == "ffff:";
    DoubleColonsConcat("ffff:", t[5..]);
  }

  /** Zeros, a colon and a dotted quad: no "::", and a zero in front. */
  lemma ZerosThenIPv4Shape(u: string)
    requires ZerosThenIPv4(u)
    ensures DoubleColons(u) == 0 && |u| > 0 && u[0] == '0'
  {
    var z := ZeroRun(u);
    var zeros, q := u[..z], u[z + 1..];
    ColonSplit(u, z);
    IPv4Text.Alphabet(q);
    DoubleColonsWithoutColon(q);
    DoubleColonsConcat(":", q);
    assert forall i | 0 <= i < z :: zeros[i] == '0';
    DoubleColonsWithoutColon(zeros);
    DoubleColonsConcat(zeros, ":" + q);
  }

  /** Text with a colon at index k: what comes before it, the colon, and what comes after. */
  lemma ColonSplit(s: string, k: nat)
    requires k < |s| && s[k] == ':'
    ensures s == s[..k] + (":" + s[k + 1..])
  {
    AroundIndex(s, k);
  }

  /** A mapped or translated IPv4 address has exactly one "::", its first two characters. */
  lemma MappedDoubleColons(s: string)
    requires MappedIPv4(s)
    ensures DoubleColons(s) == 1
  {
    var t := s[2..];
    MappedSuffixShape(t);
    assert s == "::" + t;
    DoubleColonsConcat("::", t);
  }

  /** An embedded IPv4 address has exactly one "::", before the dotted quad. */
  lemma EmbeddedDoubleColons(s: string)
    requires EmbeddedIPv4(s)
    ensures DoubleColons(s) == 1
  {
    var (head, rest) := HeadUnits(s);
    var q := rest[1..];
    HeadUnitsSplit(s);
    HeadTextShape(head);
    IPv4Text.Alphabet(q);
    DoubleColonsWithoutColon(q);
    assert rest == ":" + q;
    DoubleColonsConcat(":", q);
    DoubleColonsConcat(HeadText(head), rest);
  }

  /** Every accepted IPv6 text has at most one "::": no alternative elides twice. */
  lemma AtMostOneElision(s: string)
    requires IsIPv6Address(s)
    ensures DoubleColons(s) <= 1
  {
    ElidedAlternatives(s);
    if FullForm(s) {
      FullFormDoubleColons(s);
    } else if Elision(s).Some? {
      ElidedDoubleColons(s);
    } else if LinkLocalWithZone(s) {
      LinkLocalDoubleColons(s);
    } else if MappedIPv4(s) {
      MappedDoubleColons(s);
    } else {
      EmbeddedDoubleColons(s);
    }
  }

  /** In an accepted IPv6 text, "::" occurs at no more than one index. */
  lemma ElisionIndexUnique(s: string, i: int, j: int)
    requires IsIPv6Address(s) && DoubleColonAt(s, i) && DoubleColonAt(s, j)
    ensures i == j
  {
    AtMostOneElision(s);
    if i < j {
      DoubleColonsCounted(s, i, j);
      assert false;
    } else if j < i {
      DoubleColonsCounted(s, j, i);
      assert false;
    }
  }

  // ---------------------------------------------------------------------------
  // The groups of each form, from the parts of its text

  /** Text starting with a colon holds no head unit. */
  lemma HeadUnitsOfColon(s: string)
    requires |s| > 0 && s[0] == ':'
    ensures HeadUnits(s) == ([], s)
  {
  }

  /** Text not starting with a colon holds no tail unit. */
  lemma TailUnitsOfNonColon(s: string)
    requires |s| == 0 || s[0] != ':'
    ensures TailUnits(s) == ([], s)
  {
  }

  /** When TailUnits reads no unit, it leaves the whole text. */
  lemma TailUnitsNone(s: string)
    requires TailUnits(s).0 == []
    ensures TailUnits(s).1 == s
  {
  }

  /** An index of a dot in an accepted dotted quad. */
  lemma QuadDot(q: string) returns (j: nat)
    requires IPv4Text.IsIPv4Address(q)
    ensures j < |q| && q[j] == '.'
  {
    SeparatorOfSplit(q, '.');
    j :| 0 <= j < |q| && q[j] == '.';
  }

  /** The hextets h, "::", then the hextets t; either side may be empty. */
  function ElidedText(h: seq<string>, t: seq<string>): string
  {
    (if |h| == 0 then "" else Join(h, ':')) + "::" + (if |t| == 0 then "" else Join(t, ':'))
  }

  lemma ElidedTextParts(h: seq<string>, t: seq<string>)
    ensures var x := if |h| == 0 then ":" else HeadText(h);
      var y := if |t| == 0 then ":" else TailText(t);
      ElidedText(h, t) == x + y
  {
    var jh := if |h| == 0 then "" else Join(h, ':');
    var jt := if |t| == 0 then "" else Join(t, ':');
    var x := if |h| == 0 then ":" else HeadText(h);
    var y := if |t| == 0 then ":" else TailText(t);
    if |h| > 0 {
      JoinHeadText(h);
    } else {
      assert jh + ":" == ":";
    }
    if |t| > 0 {
      JoinTailText(t);
    } else {
      assert ":" + jt == ":";
    }
    ColonColon(jh, jt);
    assert ElidedText(h, t) == jh + "::" + jt;
  }

  /** "::" between two texts is a colon ending the first and a colon starting the second. */
  lemma ColonColon(a: string, b: string)
    ensures a + "::" + b == (a + ":") + (":" + b)
  {
    assert "::" == ":" + ":";
  }

  /** ElidedText is read back as its own hextets on either side of "::". */
  lemma ElisionOfElidedText(h: seq<string>, t: seq<string>)
    requires AllHextets(h) && AllHextets(t)
    ensures Elision(ElidedText(h, t)) == Some((h, t))
    ensures !FullForm(ElidedText(h, t))
  {
    var s := ElidedText(h, t);
    var y := if |t| == 0 then ":" else TailText(t);
    ElidedTextParts(h, t);
    if |t| > 0 {
      TailTextCons(t[0], t[1..]);
      assert t == [t[0]] + t[1..];
      assert y[0] == ':' && |y| >= 2;
      TailTextUnits(t, "");
      assert y + "" == y && t + [] == t;
    }
    HeadUnitsOfColon(y);
    if |h| == 0 {
      assert s == ":" + y;
      HeadUnitsOfColon(s);
      assert s[1..] == y;
    } else {
      HeadTextUnits(h, y);
      assert h + [] == h;
    }
  }

  /**
   * Hextets h, then "::", then hextets t, at most seven in all: the text is
   * accepted and stands for h's values, zero groups for the rest (at least
   * one), then t's values.
   */
  lemma ElidedTextGroups(h: seq<string>, t: seq<string>)
    requires AllHextets(h) && AllHextets(t) && |h| + |t| <= 7
    ensures IsIPv6Address(ElidedText(h, t))
    ensures Groups(ElidedText(h, t)) == Some(HextetValues(h) + Zeros(8 - |h| - |t|) + HextetValues(t))
  {
    ElisionOfElidedText(h, t);
    ElidedAlternatives(ElidedText(h, t));
  }

  /** Splitting groups into octets works group by group. */
  lemma {:induction false} GroupOctetsConcat(a: seq<nat>, b: seq<nat>)
    requires forall i | 0 <= i < |a| :: a[i] < 0x10000
    requires forall i | 0 <= i < |b| :: b[i] < 0x10000
    ensures GroupOctets(a + b) == GroupOctets(a) + GroupOctets(b)
  {
    if |a| == 0 {
      assert a + b == b;
    } else {
      assert (a + b)[1..] == a[1..] + b;
      GroupOctetsConcat(a[1..], b);
    }
  }

  /** Six groups then the two groups of a dotted quad: the last four octets are the quad's. */
  lemma IPv4GroupOctets(prefix: seq<nat>, q: string)
    requires |prefix| == 6 && forall i | 0 <= i < 6 :: prefix[i] < 0x10000
    requires IPv4Text.IsIPv4Address(q)
    ensures |GroupOctets(prefix + IPv4Groups(q))| == 16
    ensures GroupOctets(prefix + IPv4Groups(q))[12..] == IPv4Text.Octets(q)
  {
    var b := IPv4Text.Octets(q);
    var g := IPv4Groups(q);
    GroupOctetsConcat(prefix, g);
    DivModUnique(g[0], 256, b[0], b[1]);
    DivModUnique(g[1], 256, b[2], b[3]);
    assert GroupOctets(g[1..][1..]) == [];
    assert GroupOctets(g[1..]) == [b[2], b[3]];
    assert GroupOctets(g) == [b[0], b[1], b[2], b[3]];
  }

  /**
   * Hextets h (one to four), then "::", then a dotted quad q: the text is
   * accepted and stands for h's values, zero groups, then q's two groups.
   */
  lemma EmbeddedTextGroups(h: seq<string>, q: string)
    requires AllHextets(h) && 1 <= |h| <= 4 && IPv4Text.IsIPv4Address(q)
    ensures IsIPv6Address(Join(h, ':') + "::" + q)
    ensures Groups(Join(h, ':') + "::" + q) == Some(HextetValues(h) + Zeros(6 - |h|) + IPv4Groups(q))
  {
    EmbeddedTextForm(h, q);
    EmbeddedOnly(Join(h, ':') + "::" + q);
  }

  /** The same text's last four octets are q's. */
  lemma EmbeddedTextOctets(h: seq<string>, q: string)
    requires AllHextets(h) && 1 <= |h| <= 4 && IPv4Text.IsIPv4Address(q)
    ensures IsIPv6Address(Join(h, ':') + "::" + q)
    ensures Octets(Join(h, ':') + "::" + q).Some?
    ensures Octets(Join(h, ':') + "::" + q).value[12..] == IPv4Text.Octets(q)
  {
    EmbeddedTextGroups(h, q);
    GroupsConcatFit(HextetValues(h), Zeros(6 - |h|));
    QuadOctets(Join(h, ':') + "::" + q, HextetValues(h) + Zeros(6 - |h|), q);
  }

  /** An accepted text whose last two groups are a dotted quad's: its last four octets are the quad's. */
  lemma QuadOctets(s: string, prefix: seq<nat>, q: string)
    requires |prefix| == 6 && forall i | 0 <= i < 6 :: prefix[i] < 0x10000
    requires IPv4Text.IsIPv4Address(q)
    requires IsIPv6Address(s) && Groups(s) == Some(prefix + IPv4Groups(q))
    ensures Octets(s).Some? && Octets(s).value[12..] == IPv4Text.Octets(q)
  {
    OctetsOfGroups(s, prefix + IPv4Groups(q));
    IPv4GroupOctets(prefix, q);
  }

  /** Groups that each fit in 16 bits, one list after the other, still do. */
  lemma GroupsConcatFit(a: seq<nat>, b: seq<nat>)
    requires forall i | 0 <= i < |a| :: a[i] < 0x10000
    requires forall i | 0 <= i < |b| :: b[i] < 0x10000
    ensures forall i | 0 <= i < |a + b| :: (a + b)[i] < 0x10000
  {
    forall i | 0 <= i < |a + b|
      ensures (a + b)[i] < 0x10000
    {
      if i >= |a| {
        assert (a + b)[i] == b[i - |a|];
      }
    }
  }

  /** The octets of an accepted text are those of its groups. */
  lemma OctetsOfGroups(s: string, g: seq<nat>)
    requires IsIPv6Address(s) && Groups(s) == Some(g)
    ensures Octets(s) == Some(GroupOctets(g))
  {
  }

  /** Hextets h (one to four), "::" and a dotted quad match the embedded form and no earlier one. */
  lemma EmbeddedTextForm(h: seq<string>, q: string)
    requires AllHextets(h) && 1 <= |h| <= 4 && IPv4Text.IsIPv4Address(q)
    ensures var s := Join(h, ':') + "::" + q;
      && !FullForm(s) && Elision(s).None? && !LinkLocalWithZone(s) && !MappedIPv4(s)
      && EmbeddedIPv4(s) && EmbeddedGroups(s) == HextetValues(h) + Zeros(6 - |h|) + IPv4Groups(q)
  {
    var s := Join(h, ':') + "::" + q;
    EmbeddedTextHead(h, q);
    EmbeddedFromUnits(s, h, q);
  }

  /** Text read as hextets h then ":" and a dotted quad q matches the embedded form only. */
  lemma EmbeddedFromUnits(s: string, h: seq<string>, q: string)
    requires AllHextets(h) && 1 <= |h| <= 4 && IPv4Text.IsIPv4Address(q)
    requires HeadUnits(s) == (h, ":" + q) && |s| > 0 && IsHexDigit(s[0])
    ensures !FullForm(s) && Elision(s).None? && !LinkLocalWithZone(s) && !MappedIPv4(s)
    ensures EmbeddedIPv4(s) && EmbeddedGroups(s) == HextetValues(h) + Zeros(6 - |h|) + IPv4Groups(q)
  {
    QuadAfterColon(q);
    assert (":" + q)[1..] == q;
    NotMappedFromHexDigit(s);
  }

  /** ":" and a dotted quad: the "(:H)*" scan stops short, on neither the end nor a '%'. */
  lemma QuadAfterColon(q: string)
    requires IPv4Text.IsIPv4Address(q)
    ensures q != "" && ":" + q != ":"
    ensures var end := TailUnits(":" + q).1; end != "" && end[0] != '%'
  {
    var y := ":" + q;
    IPv4Text.Alphabet(q);
    var j := QuadDot(q);
    assert y[j + 1] == '.';
    TailUnitsStopBefore(y, j + 1);
    assert y[1..] == q;
  }

  /** Hextets, "::" and more text: the hextets are read first and the text starts with a digit. */
  lemma EmbeddedTextHead(h: seq<string>, q: string)
    requires AllHextets(h) && |h| >= 1
    ensures var s := Join(h, ':') + "::" + q;
      HeadUnits(s) == (h, ":" + q) && |s| > 0 && IsHexDigit(s[0])
  {
    var s := Join(h, ':') + "::" + q;
    var y := ":" + q;
    JoinHeadText(h);
    ColonColon(Join(h, ':'), q);
    assert s == HeadText(h) + y;
    HeadUnitsOfColon(y);
    HeadTextUnits(h, y);
    assert h + [] == h;
    HeadTextShape(h);
    assert s[0] == HeadText(h)[0];
  }

  /** Text starting with a hexadecimal digit is no mapped address. */
  lemma NotMappedFromHexDigit(s: string)
    requires |s| > 0 && IsHexDigit(s[0])
    ensures !MappedIPv4(s)
  {
    if |s| >= 2 {
      assert s[..2][0] == s[0];
    }
  }

  /** A text accepted only as an embedded IPv4 address stands for EmbeddedGroups. */
  lemma EmbeddedOnly(s: string)
    requires !FullForm(s) && Elision(s).None? && !LinkLocalWithZone(s) && !MappedIPv4(s)
    requires EmbeddedIPv4(s)
    ensures IsIPv6Address(s) && Groups(s) == Some(EmbeddedGroups(s))
  {
  }

  /** A dot in a mapped suffix. */
  lemma MappedSuffixDot(t: string) returns (j: nat)
    requires MappedSuffix(t)
    ensures j < |t| && t[j] == '.'
  {
    if IPv4Text.IsIPv4Address(t) {
      j := QuadDot(t);
    } else if IPv4Text.IsIPv4Address(t[5..]) {
      var k := QuadDot(t[5..]);
      j := 5 + k;
    } else {
      var u := t[5..];
      var z := ZeroRun(u);
      var k := QuadDot(u[z + 1..]);
      j := 5 + z + 1 + k;
    }
  }

  /** "::" followed by a mapped suffix is accepted and stands for MappedGroups. */
  lemma MappedTextGroups(s: string)
    requires |s| >= 2 && s[..2] == "::" && MappedSuffix(s[2..])
    ensures IsIPv6Address(s) && Groups(s) == Some(MappedGroups(s))
  {
    HeadUnitsOfColon(s);
    var t := s[2..];
    var j := MappedSuffixDot(t);
    assert s[1..][j + 1] == '.';
    TailUnitsStopBefore(s[1..], j + 1);
  }

  /** "::" then a dotted quad: six zero groups, then the quad. */
  lemma MappedQuadGroups(q: string)
    requires IPv4Text.IsIPv4Address(q)
    ensures IsIPv6Address("::" + q) && Groups("::" + q) == Some(Zeros(6) + IPv4Groups(q))
  {
    var s := "::" + q;
    assert s[..2] == "::" && s[2..] == q;
    MappedTextGroups(s);
  }

  /** The same text's last four octets are the quad's. */
  lemma MappedQuadOctets(q: string)
    requires IPv4Text.IsIPv4Address(q)
    ensures IsIPv6Address("::" + q) && Octets("::" + q).Some?
    ensures Octets("::" + q).value[12..] == IPv4Text.Octets(q)
  {
    MappedQuadGroups(q);
    QuadOctets("::" + q, Zeros(6), q);
  }

  /** "::ffff:" then a dotted quad (IPv4-mapped): five zero groups, ffff, then the quad. */
  lemma MappedFfffQuadGroups(q: string)
    requires IPv4Text.IsIPv4Address(q)
    ensures IsIPv6Address("::ffff:" + q) && Groups("::ffff:" + q) == Some(Zeros(5) + [0xffff] + IPv4Groups(q))
  {
    var s := "::ffff:" + q;
    var t := s[2..];
    assert s[..2] == "::" && t[..5] == "ffff:" && t[5..] == q;
    assert t[4] == ':';
    if IPv4Text.IsIPv4Address(t) {
      IPv4Text.Alphabet(t);
    }
    MappedTextGroups(s);
  }

  /** The same text's last four octets are the quad's. */
  lemma MappedFfffQuadOctets(q: string)
    requires IPv4Text.IsIPv4Address(q)
    ensures IsIPv6Address("::ffff:" + q) && Octets("::ffff:" + q).Some?
    ensures Octets("::ffff:" + q).value[12..] == IPv4Text.Octets(q)
  {
    MappedFfffQuadGroups(q);
    GroupsConcatFit(Zeros(5), [0xffff]);
    QuadOctets("::ffff:" + q, Zeros(5) + [0xffff], q);
  }

  /**
   * "::ffff:", one to four zeros, a colon, then a dotted quad (IPv4-translated):
   * four zero groups, ffff, a zero group, then the quad.
   */
  lemma TranslatedQuadGroups(z: string, q: string)
    requires 1 <= |z| <= 4 && forall i | 0 <= i < |z| :: z[i] == '0'
    requires IPv4Text.IsIPv4Address(q)
    ensures IsIPv6Address("::ffff:" + z + ":" + q)
    ensures Groups("::ffff:" + z + ":" + q) == Some(Zeros(4) + [0xffff, 0] + IPv4Groups(q))
  {
    var s := "::ffff:" + z + ":" + q;
    var t := s[2..];
    var u := t[5..];
    assert s[..2] == "::" && t[..5] == "ffff:" && u == z + ":" + q;
    assert u[|z|] == ':';
    assert ZeroRun(u) == |z|;
    assert u[|z| + 1..] == q;
    assert t[4] == ':';
    if IPv4Text.IsIPv4Address(t) {
      IPv4Text.Alphabet(t);
    }
    if IPv4Text.IsIPv4Address(u) {
      IPv4Text.Alphabet(u);
    }
    MappedTextGroups(s);
  }

  /** The same text's last four octets are the quad's. */
  lemma TranslatedQuadOctets(z: string, q: string)
    requires 1 <= |z| <= 4 && forall i | 0 <= i < |z| :: z[i] == '0'
    requires IPv4Text.IsIPv4Address(q)
    ensures IsIPv6Address("::ffff:" + z + ":" + q)
    ensures Octets("::ffff:" + z + ":" + q).Some?
    ensures Octets("::ffff:" + z + ":" + q).value[12..] == IPv4Text.Octets(q)
  {
    TranslatedQuadGroups(z, q);
    GroupsConcatFit(Zeros(4), [0xffff, 0]);
    QuadOctets("::ffff:" + z + ":" + q, Zeros(4) + [0xffff, 0], q);
  }

  /** "fe80:%" followed by a zone index of letters and digits, with no group after fe80. */
  predicate ZoneWithoutGroups(s: string)
  {
    |s| >= 7 && s[..6] == "fe80:%" && forall i | 6 <= i < |s| :: IsAlphanumeric(s[i])
  }

  /** Such a text is accepted, but stands for no address. */
  lemma ZoneWithoutGroupsAccepted(s: string)
    requires ZoneWithoutGroups(s)
    ensures IsIPv6Address(s) && Groups(s).None?
  {
    var rest := s[5..];
    assert IsHextet(s[..4]) by {
      assert s[..4] == "fe80";
    }
    HeadUnitsAt(s, 4);
    HeadUnitsOfNonHex(rest);
    TailUnitsOfNonColon(rest);
    assert s[..4] == "fe80";
    assert forall i | 1 <= i < |rest| :: IsAlphanumeric(rest[i]) by {
      forall i | 1 <= i < |rest|
        ensures IsAlphanumeric(rest[i])
      {
        assert rest[i] == s[5 + i];
      }
    }
  }

  /** Eight hextets joined by colons, in any spelling: accepted, standing for their values. */
  lemma FullTextGroups(h: seq<string>)
    requires |h| == 8 && AllHextets(h)
    ensures IsIPv6Address(Join(h, ':')) && Groups(Join(h, ':')) == Some(HextetValues(h))
  {
    HeadUnitsOfJoin(h);
    HextetValuesLast(h);
  }

  /** The values of all hextets but the last, then the last one's value. */
  lemma HextetValuesLast(h: seq<string>)
    requires |h| >= 1 && AllHextets(h)
    ensures HextetValues(h[..|h| - 1]) + [HextetValue(h[|h| - 1])] == HextetValues(h)
  {
    assert AllHextets(h[..|h| - 1]);
  }

  /**
   * "fe80:", then one to four tail units ":H", then '%' and a zone index of
   * letters and digits: accepted, standing for fe80, zero groups, then the
   * hextets; the zone index adds nothing.
   */
  lemma LinkLocalTextGroups(t: seq<string>, zone: string)
    requires AllHextets(t) && 1 <= |t| <= 4
    requires |zone| >= 1 && forall i | 0 <= i < |zone| :: IsAlphanumeric(zone[i])
    ensures IsIPv6Address("fe80::" + Join(t, ':') + "%" + zone)
    ensures Groups("fe80::" + Join(t, ':') + "%" + zone) == Some([0xfe80] + Zeros(7 - |t|) + HextetValues(t))
  {
    var s := "fe80::" + Join(t, ':') + "%" + zone;
    LinkLocalTextUnits(t, zone);
    LinkLocalOnly(s);
  }

  /** How the scanners read "fe80:" + tail units + "%" + zone. */
  lemma LinkLocalTextUnits(t: seq<string>, zone: string)
    requires AllHextets(t) && 1 <= |t| <= 4
    requires |zone| >= 1 && forall i | 0 <= i < |zone| :: IsAlphanumeric(zone[i])
    ensures var s := "fe80::" + Join(t, ':') + "%" + zone;
      && HeadUnits(s) == (["fe80"], TailText(t) + ("%" + zone))
      && TailUnits(HeadUnits(s).1) == (t, "%" + zone)
  {
    var end := "%" + zone;
    var rest := TailText(t) + end;
    JoinTailText(t);
    Fe80Regrouped(Join(t, ':'), zone);
    TailTextFirst(t, end);
    Fe80HeadUnits(rest);
    ZoneTailUnits(t, zone);
  }

  /** "fe80:" and text starting with a colon: fe80 is the one head unit. */
  lemma Fe80HeadUnits(rest: string)
    requires |rest| > 0 && rest[0] == ':'
    ensures HeadUnits("fe80:" + rest) == (["fe80"], rest)
  {
    var s := "fe80:" + rest;
    Fe80First(rest);
    HeadUnitsAt(s, 4);
    HeadUnitsOfColon(rest);
    assert HeadUnits(s) == ([s[..4]] + [], rest);
    assert [s[..4]] + [] == ["fe80"];
  }

  /** Tail units written out, then '%' and a zone index: the units are read back, the zone is left. */
  lemma ZoneTailUnits(t: seq<string>, zone: string)
    requires AllHextets(t)
    ensures TailUnits(TailText(t) + ("%" + zone)) == (t, "%" + zone)
  {
    TailTextUnits(t, "%" + zone);
    TailUnitsOfNonColon("%" + zone);
    assert t + [] == t;
  }

  /** The link-local text regrouped as "fe80:" and the rest. */
  lemma Fe80Regrouped(j: string, zone: string)
    ensures "fe80::" + j + "%" + zone == "fe80:" + ((":" + j) + ("%" + zone))
  {
    assert "fe80::" == "fe80:" + ":";
  }

  /** "fe80:" in front of any text is the hextet fe80 and a colon. */
  lemma Fe80First(rest: string)
    ensures var s := "fe80:" + rest;
      |s| > 4 && s[..4] == "fe80" && IsHextet(s[..4]) && s[4] == ':' && s[5..] == rest
  {
    var s := "fe80:" + rest;
    assert s[..4] == "fe80";
  }

  /** Read that way, the text is of the link-local form only, with t as its tail units. */
  lemma LinkLocalOnly(s: string)
    requires HeadUnits(s).0 == ["fe80"] && |HeadUnits(s).1| > 0 && HeadUnits(s).1[0] == ':'
    requires var (tail, end) := TailUnits(HeadUnits(s).1);
      && 1 <= |tail| <= 4 && |end| >= 2 && end[0] == '%'
      && forall i | 1 <= i < |end| :: IsAlphanumeric(end[i])
    ensures IsIPv6Address(s)
    ensures Groups(s) == Some([0xfe80] + Zeros(7 - |TailUnits(HeadUnits(s).1).0|) + HextetValues(TailUnits(HeadUnits(s).1).0))
  {
  }

  /** Text that does not start with a hexadecimal digit holds no head unit. */
  lemma HeadUnitsOfNonHex(s: string)
    requires |s| == 0 || !IsHexDigit(s[0])
    ensures HeadUnits(s) == ([], s)
  {
  }

  /** An accepted text that stands for no address is "fe80:%" and a zone. */
  lemma NoGroupsIsZoneOnly(s: string)
    requires IsIPv6Address(s) && Groups(s).None?
    ensures ZoneWithoutGroups(s)
  {
    ElidedAlternatives(s);
    assert LinkLocalWithZone(s);
    var (head, rest) := HeadUnits(s);
    var (tail, end) := TailUnits(rest);
    assert tail == [];
    TailUnitsNone(rest);
    HeadUnitsSplit(s);
    assert head == ["fe80"];
    assert HeadText(head) == "fe80:";
    assert s == "fe80:" + end;
    assert forall i | 6 <= i < |s| :: IsAlphanumeric(s[i]) by {
      forall i | 6 <= i < |s|
        ensures IsAlphanumeric(s[i])
      {
        assert s[i] == end[i - 5];
      }
    }
  }

  /** An accepted IPv6 text fails to convert exactly when it is "fe80:%" and a zone. */
  lemma OctetsNoneExactly(s: string)
    requires IsIPv6Address(s)
    ensures Octets(s).None? <==> ZoneWithoutGroups(s)
  {
    if Groups(s).None? {
      NoGroupsIsZoneOnly(s);
    }
    if ZoneWithoutGroups(s) {
      ZoneWithoutGroupsAccepted(s);
    }
  }
}
