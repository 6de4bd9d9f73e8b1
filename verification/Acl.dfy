/** The access list of the proxy: its rules, their order, and the two passes a dial makes over it. */
module Acl {
  import opened Panel

  datatype Decision = Allow | Deny | NoMatch

  // ---------- addresses and networks ----------

  /** An address as a number of 32 or 128 bits. */
  datatype Address = Address(width: nat, value: nat)

  /** A network in prefix notation. */
  datatype Net = Net(base: Address, prefix: nat)

  function Pow2(n: nat): (p: nat)
    ensures p > 0
  {
    if n == 0 then 1 else 2 * Pow2(n - 1)
  }

  /** An address of 128 bits that carries one of 32. */
  predicate Mapped(a: Address) {
    a.width == 128 && a.value / 0x1_0000_0000 == 0xffff
  }

  /** A mapped address counts as the one it carries. */
  function Normal(a: Address): Address {
    if Mapped(a) then Address(32, a.value % 0x1_0000_0000) else a
  }

  lemma {:induction false} PowSum(a: nat, b: nat)
    ensures Pow2(a + b) == Pow2(a) * Pow2(b)
  {
    if a > 0 {
      PowSum(a - 1, b);
    }
  }

  lemma SmallSizes()
    ensures Pow2(0) == 1 && Pow2(1) == 2 && Pow2(2) == 4 && Pow2(4) == 0x10
  {
  }

  lemma Sizes()
    ensures Pow2(0) == 1 && Pow2(1) == 2 && Pow2(16) == 0x1_0000 && Pow2(20) == 0x10_0000 && Pow2(24) == 0x100_0000
    ensures Pow2(32) == 0x1_0000_0000 && Pow2(96) == 0x1_0000_0000_0000_0000_0000_0000
    ensures Pow2(118) == 0x40_0000_0000_0000_0000_0000_0000_0000
  {
    hide Pow2;
    SmallSizes();
    PowSum(4, 4);
    PowSum(8, 8);
    PowSum(16, 4);
    PowSum(16, 8);
    PowSum(16, 16);
    PowSum(32, 32);
    PowSum(64, 32);
    PowSum(96, 20);
    PowSum(116, 2);
  }

  lemma {:induction false} NegativeProduct(q: int, p: nat)
    requires p > 0
    ensures q < 0 ==> q * p + p <= 0
  {
    if p > 1 {
      NegativeProduct(q, p - 1);
      assert q * p == q * (p - 1) + q;
    }
  }

  function Div(x: nat, p: nat): (q: nat)
    requires p > 0
    ensures q * p <= x < q * p + p
  {
    assert x == x / p * p + x % p;
    NegativeProduct(x / p, p);
    x / p
  }

  lemma InRange(x: nat, q: nat, p: nat)
    requires p > 0
    ensures Div(x, p) == q <==> q * p <= x < q * p + p
  {
    if Div(x, p) < q {
      assert (Div(x, p) + 1) * p <= q * p;
    } else if Div(x, p) > q {
      assert (q + 1) * p <= Div(x, p) * p;
    }
  }

  /** The bits of the value above the last `host`. */
  function High(value: nat, host: nat): nat {
    Div(value, Pow2(host))
  }

  function Masked(net: Net): Address
    requires net.prefix <= net.base.width
  {
    var host := net.base.width - net.prefix;
    Address(net.base.width, High(net.base.value, host) * Pow2(host))
  }

  predicate Contains(net: Net, ip: Address)
    requires net.prefix <= net.base.width
  {
    var start, addr := Normal(Masked(net)), Normal(ip);
    var host := net.base.width - net.prefix;
    start.width == addr.width && High(start.value, host) == High(addr.value, host)
  }

  // ---------- rules ----------

  datatype Rule =
    | IPRule(net: Net, allow: bool)
    | DomainRule(domain: string, subdomainsAllowed: bool, allow: bool)
    | AllRule(allow: bool)
  {
    predicate Valid() {
      IPRule? ==> net.prefix <= net.base.width
    }

    predicate Matches(ip: Address, host: string)
      requires Valid()
    {
      match this
      case IPRule(net, _) => Contains(net, ip)
      case DomainRule(_, _, _) => MatchesHost(host)
      case AllRule(_) => true
    }

    predicate MatchesHost(host: string)
      requires DomainRule?
    {
      var name := TrimDot(host);
      name == domain || (subdomainsAllowed && HasSuffix(name, "." + domain))
    }

    function TryMatch(ip: Address, host: string): Decision
      requires Valid()
    {
      if !Matches(ip, host) then NoMatch else if allow then Allow else Deny
    }
  }

  type ValidRule = r: Rule | r.Valid() witness AllRule(true)

  function TrimDot(name: string): string {
    if name != "" && name[0] == '.' then name[1..] else name
  }

  predicate HasSuffix(s: string, end: string) {
    |end| <= |s| && s[|s| - |end|..] == end
  }

  // ---------- labels ----------

  function Split(name: string): (labels: seq<string>)
    ensures labels != []
  {
    if name == "" then [""]
    else
      var rest := Split(name[1..]);
      if name[0] == '.' then [""] + rest else [[name[0]] + rest[0]] + rest[1..]
  }

  function Join(labels: seq<string>): string
    requires labels != []
  {
    if |labels| == 1 then labels[0] else labels[0] + "." + Join(labels[1..])
  }

  lemma {:induction false} JoinOfSplit(name: string)
    ensures Join(Split(name)) == name
  {
    if name != "" {
      var rest := Split(name[1..]);
      JoinOfSplit(name[1..]);
      if name[0] == '.' {
        assert Split(name)[1..] == rest;
      } else {
        assert Split(name)[1..] == rest[1..];
      }
    }
  }

  lemma {:induction false} JoinAppend(front: seq<string>, back: seq<string>)
    requires front != [] && back != []
    ensures Join(front + back) == Join(front) + "." + Join(back)
  {
    if |front| == 1 {
      assert (front + back)[1..] == back;
    } else {
      assert (front + back)[1..] == front[1..] + back;
      JoinAppend(front[1..], back);
    }
  }

  lemma {:induction false} SplitAtDot(front: string, back: string)
    ensures Split(front + "." + back) == Split(front) + Split(back)
  {
    var name := front + "." + back;
    if front == "" {
      assert name[1..] == back;
    } else {
      assert name[1..] == front[1..] + "." + back;
      SplitAtDot(front[1..], back);
    }
  }

  /** `back` ends the list of labels and something stands before it. */
  ghost predicate ProperTail(labels: seq<string>, back: seq<string>) {
    |back| < |labels| && labels[|labels| - |back|..] == back
  }

  lemma SuffixGivesTail(name: string, domain: string)
    requires HasSuffix(name, "." + domain)
    ensures ProperTail(Split(name), Split(domain))
  {
    var front := name[..|name| - |domain| - 1];
    assert name == front + "." + domain;
    SplitAtDot(front, domain);
  }

  lemma TailGivesSuffix(name: string, domain: string)
    requires ProperTail(Split(name), Split(domain))
    ensures HasSuffix(name, "." + domain)
  {
    hide Split, Join;
    var labels, back := Split(name), Split(domain);
    var front := labels[..|labels| - |back|];
    assert labels == front + back;
    JoinAppend(front, back);
    JoinOfSplit(name);
    JoinOfSplit(domain);
    var end := "." + domain;
    assert name == Join(front) + end;
    assert name[|Join(front)|..] == end;
  }

  /** The test on characters is the test on whole labels: a name is never taken for a subdomain
      because its last label merely ends in the same characters. */
  lemma SuffixIsByLabels(name: string, domain: string)
    ensures HasSuffix(name, "." + domain) <==> ProperTail(Split(name), Split(domain))
    ensures name == domain <==> Split(name) == Split(domain)
  {
    if HasSuffix(name, "." + domain) {
      SuffixGivesTail(name, domain);
    } else if ProperTail(Split(name), Split(domain)) {
      TailGivesSuffix(name, domain);
    }
    JoinOfSplit(name);
    JoinOfSplit(domain);
  }

  // ---------- reading a rule ----------

  predicate Allowed(c: char) {
    'a' <= c <= 'z' || 'A' <= c <= 'Z' || c == '_' || '0' <= c <= '9' || c == '-' || c == '.'
  }

  predicate IsValidDomainLite(domain: string) {
    && (forall i | 0 <= i < |domain| :: Allowed(domain[i]))
    && (forall part | part in Split(domain) :: 1 <= |part| <= 63)
  }

  const LOWER := "abcdefghijklmnopqrstuvwxyz"
  const UPPER := "ABCDEFGHIJKLMNOPQRSTUVWXYZ"
  const DIGITS := "0123456789"

  predicate LabelCharacter(c: char) {
    c in LOWER || c in UPPER || c in DIGITS || c == '-' || c == '_'
  }

  lemma Lower(c: char)
    ensures 'a' <= c <= 'z' <==> c in LOWER
  {
    if 'a' <= c <= 'z' {
      assert LOWER[c as int - 'a' as int] == c;
    }
  }

  lemma Upper(c: char)
    ensures 'A' <= c <= 'Z' <==> c in UPPER
  {
    if 'A' <= c <= 'Z' {
      assert UPPER[c as int - 'A' as int] == c;
    }
  }

  lemma Digit(c: char)
    ensures '0' <= c <= '9' <==> c in DIGITS
  {
    if '0' <= c <= '9' {
      assert DIGITS[c as int - '0' as int] == c;
    }
  }

  lemma AllowedInLabels(c: char)
    ensures Allowed(c) && c != '.' <==> LabelCharacter(c)
  {
    Lower(c);
    Upper(c);
    Digit(c);
    hide LOWER, UPPER, DIGITS;
    assert '.' !in LOWER && '.' !in UPPER && '.' !in DIGITS by {
      Lower('.');
      Upper('.');
      Digit('.');
    }
  }

  /** Letters, digits, hyphens and underscores, and not too many of them. */
  ghost predicate GoodLabel(part: string) {
    1 <= |part| <= 63 && forall i | 0 <= i < |part| :: LabelCharacter(part[i])
  }

  lemma {:induction false} LabelCharacters(name: string)
    ensures (forall i | 0 <= i < |name| :: Allowed(name[i]))
       <==> (forall part, i | part in Split(name) && 0 <= i < |part| :: Allowed(part[i]))
    ensures forall part, i | part in Split(name) && 0 <= i < |part| :: part[i] != '.'
  {
    if name != "" {
      var rest := Split(name[1..]);
      LabelCharacters(name[1..]);
      assert name == [name[0]] + name[1..];
      if name[0] != '.' {
        var first := [name[0]] + rest[0];
        assert Split(name) == [first] + rest[1..];
        assert rest == [rest[0]] + rest[1..];
        assert forall i | 0 <= i < |rest[0]| :: first[i + 1] == rest[0][i];
        assert first in Split(name) && first[0] == name[0];
      }
    }
  }

  lemma ValidByLabels(domain: string)
    ensures IsValidDomainLite(domain) <==> forall part | part in Split(domain) :: GoodLabel(part)
  {
    LabelCharacters(domain);
    forall c: char
      ensures Allowed(c) && c != '.' <==> LabelCharacter(c)
    {
      AllowedInLabels(c);
    }
    hide Allowed, LabelCharacter;
  }

  /** A rule as configured, with what the address parsers make of its text. */
  datatype Subject = Subject(text: string, cidr: Option<Net>, ip: Option<Address>, allow: bool)

  ghost predicate Parsed(s: Subject) {
    && (s.cidr.Some? ==> s.cidr.value.prefix <= s.cidr.value.base.width)
    && (s.ip.Some? ==> s.ip.value.width in {32, 128})
  }

  /** The prefix length added to a bare address: a mapped one is taken for one of 32 bits, but its
      text still reads as one of 128. */
  function BareNet(ip: Address): Net {
    Net(ip, if ip.width == 32 || Mapped(ip) then 32 else 128)
  }

  function NewACLRule(s: Subject): (r: Option<Rule>)
    requires Parsed(s)
    ensures r.Some? ==> r.value.Valid() && r.value.allow == s.allow
  {
    if s.text == "all" then Some(AllRule(s.allow))
    else if s.cidr.Some? then Some(IPRule(s.cidr.value, s.allow))
    else if s.ip.Some? then Some(IPRule(BareNet(s.ip.value), s.allow))
    else
      var wildcard := "*." <= s.text;
      var domain := if wildcard then s.text[2..] else s.text;
      if IsValidDomainLite(domain) then Some(DomainRule(domain, wildcard, s.allow)) else None
  }

  /** What a domain in the list stands for: its own labels or, with `*.`, any name that ends in them. */
  lemma DomainRuleMeaning(s: Subject, ip: Address, host: string)
    requires Parsed(s) && s.text != "all" && s.cidr.None? && s.ip.None? && NewACLRule(s).Some?
    ensures
      var wildcard := "*." <= s.text;
      var labels := Split(if wildcard then s.text[2..] else s.text);
      NewACLRule(s).value.Matches(ip, host)
      <==> Split(TrimDot(host)) == labels || (wildcard && ProperTail(Split(TrimDot(host)), labels))
  {
    SuffixIsByLabels(TrimDot(host), NewACLRule(s).value.domain);
  }

  predicate ProperAddress(a: Address) {
    a.width in {32, 128} && a.value < Pow2(a.width)
  }

  /** A bare address in the list names that address alone, except one written in mapped form: its
      rule does not even match the address it was written for. */
  lemma BareAddressRule(ip: Address, other: Address)
    requires ProperAddress(ip) && ProperAddress(other)
    ensures !Mapped(ip) ==> (Contains(BareNet(ip), other) <==> Normal(other) == ip)
    ensures Contains(BareNet(ip), ip) <==> !Mapped(ip)
  {
    Sizes();
    if Mapped(ip) {
      MappedIsLow(ip);
    } else {
      assert Masked(BareNet(ip)) == ip;
    }
  }

  lemma MappedIsLow(ip: Address)
    requires Mapped(ip)
    ensures Masked(BareNet(ip)) == Address(128, 0)
  {
    Sizes();
    assert ip.value < 0x1_0000_0000_0000;
    assert ip.value < Pow2(96);
    assert High(ip.value, 96) == 0;
  }

  /** The subject "all" matches everything. */
  lemma AllMatchesEverything(s: Subject, ip: Address, host: string)
    requires Parsed(s) && s.text == "all"
    ensures NewACLRule(s).Some? && NewACLRule(s).value.Matches(ip, host)
  {
  }

  /** A leading dot of the host makes no difference to a rule. */
  lemma LeadingDotIgnored(r: ValidRule, ip: Address, host: string)
    requires host != "" && host[0] != '.'
    ensures r.Matches(ip, "." + host) == r.Matches(ip, host)
  {
    assert ("." + host)[1..] == host;
  }

  // ---------- the list ----------

  function V4(a: nat, b: nat, c: nat, d: nat): Address {
    Address(32, ((a * 256 + b) * 256 + c) * 256 + d)
  }

  const FE80: nat := 0xfe80_0000_0000_0000_0000_0000_0000_0000

  const PRIVATE: seq<ValidRule> := [
    IPRule(Net(V4(10, 0, 0, 0), 8), false),
    IPRule(Net(V4(127, 0, 0, 0), 8), false),
    IPRule(Net(V4(172, 16, 0, 0), 12), false),
    IPRule(Net(V4(192, 168, 0, 0), 16), false),
    IPRule(Net(Address(128, 1), 128), false),
    IPRule(Net(Address(128, FE80), 10), false)]

  /** Addresses that the list never allows by default, octet by octet. */
  predicate IsPrivate(ip: Address) {
    var a := Normal(ip);
    if a.width == 32 then
      var first, second := a.value / 0x100_0000, a.value / 0x1_0000 % 0x100;
      first == 10 || first == 127 || (first == 172 && 16 <= second < 32) || (first == 192 && second == 168)
    else
      a.value == 1 || FE80 <= a.value < FE80 + Pow2(118)
  }

  /** The rule at `k` is the one that decides. */
  ghost predicate IsFirstMatch(rules: seq<ValidRule>, k: nat, ip: Address, host: string) {
    && k < |rules|
    && rules[k].Matches(ip, host)
    && forall j | 0 <= j < k :: !rules[j].Matches(ip, host)
  }

  lemma FirstMatchExists(rules: seq<ValidRule>, m: nat, ip: Address, host: string) returns (k: nat)
    requires m < |rules| && rules[m].Matches(ip, host)
    ensures IsFirstMatch(rules, k, ip, host) && k <= m
  {
    k := 0;
    while !rules[k].Matches(ip, host)
      invariant k <= m && forall j | 0 <= j < k :: !rules[j].Matches(ip, host)
      decreases m - k
    {
      k := k + 1;
    }
  }

  /** The first rule that matches allows. */
  ghost predicate Permits(rules: seq<ValidRule>, host: string, ip: Address) {
    exists k: nat :: IsFirstMatch(rules, k, ip, host) && rules[k].allow
  }

  // ---------- setting up ----------

  method Provision(subjects: seq<Subject>) returns (rules: Option<seq<ValidRule>>)
    requires forall s | s in subjects :: Parsed(s)
    ensures rules.Some? <==> forall s | s in subjects :: NewACLRule(s).Some?
    ensures rules.Some? ==>
      && |rules.value| == |subjects| + |PRIVATE| + 1
      && (forall i | 0 <= i < |subjects| :: rules.value[i] == NewACLRule(subjects[i]).value)
      && rules.value[|subjects|..] == PRIVATE + [AllRule(true)]
  {
    var list: seq<ValidRule> := [];
    for i := 0 to |subjects|
      invariant |list| == i
      invariant forall j | 0 <= j < i :: NewACLRule(subjects[j]) == Some(list[j])
    {
      var rule := NewACLRule(subjects[i]);
      if rule.None? {
        return None;
      }
      list := list + [rule.value];
    }
    return Some(list + PRIVATE + [AllRule(true)]);
  }

  lemma Factor(a: nat, b: nat, c: int, p: nat)
    requires p > 0 && a * p == b * p + c && 0 <= c
    ensures a >= b && c == (a - b) * p
  {
    assert (a - b) * p == a * p - b * p;
    NegativeProduct(a - b, p);
  }

  /** A masked 128-bit address is mapped only when at most 32 bits were masked off, and then what it
      carries is on the same boundary. */
  lemma MappedBoundary(q: nat, host: nat) returns (low: nat)
    requires Mapped(Address(128, q * Pow2(host)))
    ensures host <= 32 && q * Pow2(host) % 0x1_0000_0000 == low * Pow2(host)
  {
    Sizes();
    hide Pow2;
    var value := q * Pow2(host);
    assert value == 0xffff * 0x1_0000_0000 + value % 0x1_0000_0000;
    if host > 32 {
      PowSum(33, host - 33);
      PowSum(32, 1);
      EvenHigh(q, Pow2(33), Pow2(host - 33));
    }
    PowSum(32 - host, host);
    low := 0;
    Regroup(0xffff, Pow2(32 - host), Pow2(host));
    Factor(q, 0xffff * Pow2(32 - host), value % 0x1_0000_0000, Pow2(host));
    low := q - 0xffff * Pow2(32 - host);
  }

  lemma Regroup(a: nat, b: nat, c: nat)
    ensures a * (b * c) == a * b * c
  {
  }

  lemma EvenHigh(q: nat, p: nat, rest: nat)
    requires p == 0x2_0000_0000
    ensures q * (p * rest) / 0x1_0000_0000 != 0xffff
  {
    Regroup(q, rest, p);
    assert p * rest == rest * p;
    assert q * (p * rest) == 0x1_0000_0000 * (2 * (q * rest));
  }

  /** Every network holds one interval of addresses, that from its masked base on; a network of mapped
      addresses holds the 32-bit ones they carry. */
  lemma NetIsInterval(net: Net, ip: Address)
    requires net.base.width in {32, 128} && net.prefix <= net.base.width
    ensures
      var start, size := Normal(Masked(net)), Pow2(net.base.width - net.prefix);
      Contains(net, ip) <==> Normal(ip).width == start.width && start.value <= Normal(ip).value < start.value + size
  {
    var host := net.base.width - net.prefix;
    var q := High(net.base.value, host);
    var start := Normal(Masked(net));
    if Mapped(Masked(net)) {
      q := MappedBoundary(q, host);
    }
    assert start.value == q * Pow2(host);
    InRange(start.value, q, Pow2(host));
    InRange(Normal(ip).value, q, Pow2(host));
  }

  /** A network that starts on its own boundary starts with its base. */
  lemma AlignedNetIsInterval(net: Net, q: nat, ip: Address)
    requires net.base.width in {32, 128} && net.prefix <= net.base.width && !Mapped(net.base)
    requires net.base.value == q * Pow2(net.base.width - net.prefix)
    ensures
      var size := Pow2(net.base.width - net.prefix);
      Contains(net, ip)
      <==> Normal(ip).width == net.base.width && net.base.value <= Normal(ip).value < net.base.value + size
  {
    InRange(net.base.value, q, Pow2(net.base.width - net.prefix));
    assert Masked(net) == net.base;
    NetIsInterval(net, ip);
  }

  /** A subject that reads as a network matches the addresses from its masked base on, as many as the
      bits behind the prefix can tell apart. */
  lemma NetworkRuleMeaning(s: Subject, ip: Address, host: string)
    requires Parsed(s) && s.text != "all" && s.cidr.Some? && s.cidr.value.base.width in {32, 128}
    ensures NewACLRule(s).Some?
    ensures
      var net := s.cidr.value;
      var start, size := Normal(Masked(net)), Pow2(net.base.width - net.prefix);
      NewACLRule(s).value.Matches(ip, host)
      <==> Normal(ip).width == start.width && start.value <= Normal(ip).value < start.value + size
  {
    NetIsInterval(s.cidr.value, ip);
  }

  /** An address of 128 bits that carries one of 32, ::ffff:a.b.c.d, counts as that one in every rule. */
  lemma MappedAddressIsPlain(r: ValidRule, v: nat, host: string)
    requires v < 0x1_0000_0000
    ensures
      var mapped := Address(128, 0xffff_0000_0000 + v);
      && r.Matches(mapped, host) == r.Matches(Address(32, v), host)
      && IsPrivate(mapped) == IsPrivate(Address(32, v))
  {
    assert Normal(Address(128, 0xffff_0000_0000 + v)) == Address(32, v) == Normal(Address(32, v));
  }

  lemma PrivateIntervals(ip: Address)
    requires ip.width in {32, 128}
    ensures IsPrivate(ip) <==> exists k: nat :: k < |PRIVATE| && Contains(PRIVATE[k].net, ip)
  {
    Sizes();
    hide Pow2, Contains;
    var nets := PRIVATE;
    AlignedNetIsInterval(nets[0].net, 10, ip);
    AlignedNetIsInterval(nets[1].net, 127, ip);
    AlignedNetIsInterval(nets[2].net, 172 * 16 + 1, ip);
    AlignedNetIsInterval(nets[3].net, 192 * 256 + 168, ip);
    AlignedNetIsInterval(nets[4].net, 1, ip);
    AlignedNetIsInterval(nets[5].net, 1018, ip);
    assert IsPrivate(ip) <==>
      Contains(nets[0].net, ip) || Contains(nets[1].net, ip) || Contains(nets[2].net, ip)
      || Contains(nets[3].net, ip) || Contains(nets[4].net, ip) || Contains(nets[5].net, ip);
  }

  /** The list always decides: the first configured rule that matches does, and without one an
      address is allowed exactly when it is not private. */
  lemma ProvisionedDecides(own: seq<ValidRule>, ip: Address, host: string)
    requires ip.width in {32, 128}
    ensures
      var rules := own + PRIVATE + [AllRule(true)];
      && (exists k: nat :: IsFirstMatch(rules, k, ip, host))
      && (Permits(rules, host, ip)
          <==> (|| Permits(own, host, ip)
                || ((forall j | 0 <= j < |own| :: !own[j].Matches(ip, host)) && !IsPrivate(ip))))
  {
    hide IsPrivate, Contains;
    var rules := own + PRIVATE + [AllRule(true)];
    var last := |own| + |PRIVATE|;
    assert rules[last] == AllRule(true);
    var k := FirstMatchExists(rules, last, ip, host);
    PrivateIntervals(ip);
    assert forall j | 0 <= j < |own| :: rules[j] == own[j];
    assert forall j | 0 <= j < |PRIVATE| :: rules[|own| + j] == PRIVATE[j] && !PRIVATE[j].allow;
    assert forall l: nat | IsFirstMatch(rules, l, ip, host) :: l == k;
    if k < |own| {
      assert IsFirstMatch(own, k, ip, host);
      assert forall l: nat | IsFirstMatch(own, l, ip, host) :: l == k;
    } else if IsPrivate(ip) {
      var j: nat :| j < |PRIVATE| && Contains(PRIVATE[j].net, ip);
      assert rules[|own| + j].Matches(ip, host);
    }
  }

  // ---------- dialing ----------

  method HostIsAllowed(rules: seq<ValidRule>, host: string, ip: Address) returns (ok: bool)
    ensures ok <==> Permits(rules, host, ip)
  {
    for i := 0 to |rules|
      invariant forall j | 0 <= j < i :: !rules[j].Matches(ip, host)
    {
      match rules[i].TryMatch(ip, host)
      case Deny => return false;
      case Allow => assert IsFirstMatch(rules, i, ip, host); return true;
      case NoMatch =>
    }
    return false;
  }

  method PortIsAllowed(port: Option<int>, allowed: seq<int>) returns (ok: bool)
    ensures ok <==> PortAllowed(port, allowed)
  {
    if port.None? || port.value <= 0 || port.value > 65535 {
      return false;
    }
    if |allowed| == 0 {
      return true;
    }
    ok := false;
    for i := 0 to |allowed|
      invariant !ok && port.value !in allowed[..i]
    {
      if allowed[i] == port.value {
        return true;
      }
    }
  }

  /** A resolved address and whether a dial to it goes through. */
  datatype Candidate = Candidate(ip: Address, answers: bool)

  datatype Dial = Connected(ip: Address) | ViaUpstream | Forbidden | BadGateway

  /** The rule at `k` is the first one on a domain that matches the host. */
  ghost predicate IsFirstDomainMatch(rules: seq<ValidRule>, k: nat, host: string) {
    && k < |rules|
    && rules[k].DomainRule? && rules[k].MatchesHost(host)
    && forall j | 0 <= j < k && rules[j].DomainRule? :: !rules[j].MatchesHost(host)
  }

  ghost predicate HostPasses(rules: seq<ValidRule>, host: string) {
    forall k: nat | IsFirstDomainMatch(rules, k, host) :: rules[k].allow
  }

  ghost predicate PortAllowed(port: Option<int>, allowed: seq<int>) {
    port.Some? && 0 < port.value <= 65535 && (allowed == [] || port.value in allowed)
  }

  /** The indices dialed, in order: an address is dialed exactly when the host passes the first
      pass, the whole list permits the address, and no permitted address before it answered. */
  method DialContextCheckACL(rules: seq<ValidRule>, upstream: Option<bool>, host: string, port: Option<int>,
                             allowedPorts: seq<int>, found: Option<seq<Candidate>>)
    returns (result: Dial, dialed: seq<nat>)
    ensures upstream.Some? ==> dialed == [] && result == if upstream.value then ViaUpstream else BadGateway
    ensures forall i, j | 0 <= i < j < |dialed| :: dialed[i] < dialed[j]
    ensures forall k: nat :: k in dialed <==>
      (&& upstream.None? && PortAllowed(port, allowedPorts)
       && HostPasses(rules, host)
       && found.Some? && k < |found.value|
       && Permits(rules, host, found.value[k].ip)
       && forall j | 0 <= j < k :: !(Permits(rules, host, found.value[j].ip) && found.value[j].answers))
    ensures upstream.None? ==> result != ViaUpstream
    ensures upstream.None? ==>
      (result == BadGateway <==> PortAllowed(port, allowedPorts) && HostPasses(rules, host) && found.None?)
    ensures result.Connected? <==>
      (&& found.Some?
       && exists k :: k in dialed && k < |found.value| && found.value[k].answers
                      && result == Connected(found.value[k].ip))
  {
    dialed := [];
    if upstream.Some? {
      return if upstream.value then ViaUpstream else BadGateway, [];
    }
    var portOk := PortIsAllowed(port, allowedPorts);
    if !portOk {
      return Forbidden, [];
    }
    var i := 0;
    var passed := false;
    while i < |rules| && !passed
      invariant i <= |rules|
      invariant !passed ==> forall k | 0 <= k < i && rules[k].DomainRule? :: !rules[k].MatchesHost(host)
      invariant passed ==> HostPasses(rules, host)
    {
      if rules[i].DomainRule? {
        match rules[i].TryMatch(Address(32, 0), host)
        case Deny => return Forbidden, [];
        case Allow => passed := true;
        case NoMatch =>
      }
      i := i + 1;
    }
    assert HostPasses(rules, host);
    if found.None? {
      return BadGateway, [];
    }
    for k := 0 to |found.value|
      invariant forall i, j | 0 <= i < j < |dialed| :: dialed[i] < dialed[j]
      invariant forall i | 0 <= i < |dialed| :: dialed[i] < k
      invariant forall j: nat :: j in dialed <==> j < k && Permits(rules, host, found.value[j].ip)
      invariant forall j | 0 <= j < k :: !(Permits(rules, host, found.value[j].ip) && found.value[j].answers)
    {
      var ok := HostIsAllowed(rules, host, found.value[k].ip);
      if ok {
        dialed := dialed + [k];
        if found.value[k].answers {
          return Connected(found.value[k].ip), dialed;
        }
      }
    }
    return Forbidden, dialed;
  }
}
