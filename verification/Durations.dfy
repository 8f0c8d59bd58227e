/** RouterOS durations: the printer `to_ttl` (dns/dns_update.py) and the parser `to_duration`
    (nix/modules/telegraf/mikrotik/mikrotik_metrics.py). */
module Durations {
  import opened Options
  import opened Powers
  import opened Division

  predicate IsDigit(c: char) {
    '0' <= c <= '9'
  }

  predicate Digits(s: string) {
    s != [] && forall c :: c in s ==> IsDigit(c)
  }

  function DigitChar(d: nat): (c: char)
    requires d < 10
    ensures IsDigit(c)
  {
    '0' + d as char
  }

  function DigitValue(c: char): nat
    requires IsDigit(c)
  {
    c as int - '0' as int
  }

  /** Decimal notation. */
  function Decimal(n: nat): (s: string)
    ensures Digits(s)
  {
    if n < 10 then [DigitChar(n)] else Decimal(n / 10) + [DigitChar(n % 10)]
  }

  /** `int` of a run of digits. */
  function Number(s: string): nat
    requires forall c :: c in s ==> IsDigit(c)
  {
    if s == [] then 0 else 10 * Number(s[..|s| - 1]) + DigitValue(s[|s| - 1])
  }

  lemma {:induction false} NumberOfDecimal(n: nat)
    ensures Number(Decimal(n)) == n
  {
    if n >= 10 {
      var s := Decimal(n);
      assert s[..|s| - 1] == Decimal(n / 10);
      NumberOfDecimal(n / 10);
    } else {
      assert Decimal(n)[..0] == [];
    }
  }

  // ----- printing -----

  function Part(n: nat, unit: string): string {
    if n > 0 then Decimal(n) + unit else ""
  }

  lemma PartEmpty(n: nat, unit: string)
    ensures Part(n, unit) == "" <==> n == 0
  {
  }

  function Ttl(seconds: nat): string {
    var d, h, m, s := seconds / 60 / 60 / 24, seconds / 60 / 60 % 24, seconds / 60 % 60, seconds % 60;
    Part(d, "d") + Part(h, "h") + Part(m, "m") + if seconds == 0 then "0s" else Part(s, "s")
  }

  /** `to_ttl`. */
  method ToTtl(seconds: nat) returns (out: string)
    ensures out == Ttl(seconds) && out != ""
  {
    hide Decimal;
    var m, s := seconds / 60, seconds % 60;
    var h;
    h, m := m / 60, m % 60;
    var d;
    d, h := h / 24, h % 24;
    PartEmpty(d, "d");
    PartEmpty(h, "h");
    PartEmpty(m, "m");
    PartEmpty(s, "s");
    out := "";
    if d > 0 {
      out := out + (Decimal(d) + "d");
    }
    assert out == Part(d, "d");
    if h > 0 {
      out := out + (Decimal(h) + "h");
    }
    assert out == Part(d, "d") + Part(h, "h");
    if m > 0 {
      out := out + (Decimal(m) + "m");
    }
    assert out == Part(d, "d") + Part(h, "h") + Part(m, "m");
    if s > 0 || out == "" {
      out := out + (Decimal(s) + "s");
    }
    ZeroSeconds();
  }

  lemma ZeroSeconds()
    ensures Decimal(0) + "s" == "0s"
  {
  }

  // ----- parsing -----

  /** An optional fraction point with one to nine digits. */
  predicate Fraction(s: string) {
    2 <= |s| <= 10 && s[0] == '.' && Digits(s[1..])
  }

  /** `\d+|\d*\.\d{1,9}` */
  ghost predicate Numeral(s: string) {
    Digits(s) || exists i :: 0 <= i <= |s| && (forall c :: c in s[..i] ==> IsDigit(c)) && Fraction(s[i..])
  }

  /** `\d*(?:\.\d{1,9})?` */
  ghost predicate ClockSeconds(s: string) {
    s == "" || Numeral(s)
  }

  /** The last part of a duration: minutes and seconds with a colon, or any of the remaining units. */
  datatype Tail =
    | Clock(minutes: string, seconds: string)
    | Units(minutes2: Option<string>, seconds2: Option<string>, ms: Option<string>, us: Option<string>, ns: Option<string>)

  /** One way of reading a string as `DURATION_RE` does: the text of every group. */
  datatype Groups = Groups(weeks: Option<string>, days: Option<string>, hours: Option<string>, separator: char, tail: Tail)

  function Opt(group: Option<string>, unit: string): string {
    match group
    case None => ""
    case Some(digits) => digits + unit
  }

  function TailText(t: Tail): string {
    match t
    case Clock(minutes, seconds) => minutes + ":" + seconds
    case Units(m, s, ms, us, ns) => Opt(m, "m") + Opt(s, "s") + Opt(ms, "ms") + Opt(us, "us") + Opt(ns, "ns")
  }

  function Text(g: Groups): string {
    Opt(g.weeks, "w") + Opt(g.days, "d") + Opt(g.hours, [g.separator]) + TailText(g.tail)
  }

  predicate DigitsIfAny(group: Option<string>) {
    group.Some? ==> Digits(group.value)
  }

  ghost predicate NumeralIfAny(group: Option<string>) {
    group.Some? ==> Numeral(group.value)
  }

  /** The regular expression matches with these groups. Its `$` also matches before a final newline. */
  ghost predicate Matches(value: string, g: Groups) {
    && (value == Text(g) || value == Text(g) + "\n")
    && DigitsIfAny(g.weeks) && DigitsIfAny(g.days) && DigitsIfAny(g.hours)
    && (g.separator == ':' || g.separator == 'h')
    && match g.tail
       case Clock(minutes, seconds) => Digits(minutes) && ClockSeconds(seconds)
       case Units(m, s, ms, us, ns) =>
         DigitsIfAny(m) && NumeralIfAny(s) && NumeralIfAny(ms) && NumeralIfAny(us) && NumeralIfAny(ns)
  }

  // ----- there is only one way to read what `to_ttl` prints -----

  /** A number and its unit. */
  datatype Token = Token(digits: string, unit: string)

  predicate WellFormed(ts: seq<Token>) {
    forall t :: t in ts ==> Digits(t.digits) && t.unit != "" && forall c :: c in t.unit ==> !IsDigit(c)
  }

  function Spell(ts: seq<Token>): string {
    if ts == [] then "" else ts[0].digits + (ts[0].unit + Spell(ts[1..]))
  }

  lemma {:induction false} SpellConcat(a: seq<Token>, b: seq<Token>)
    ensures Spell(a + b) == Spell(a) + Spell(b)
  {
    if a == [] {
      assert a + b == b;
    } else {
      assert (a + b)[1..] == a[1..] + b;
      SpellConcat(a[1..], b);
    }
  }

  lemma SpellStart(ts: seq<Token>)
    requires WellFormed(ts)
    ensures ts == [] <==> Spell(ts) == ""
    ensures ts != [] ==> IsDigit(Spell(ts)[0])
  {
    if ts != [] {
      assert ts[0] in ts;
      assert ts[0].digits[0] in ts[0].digits;
    }
  }

  /** A run of digits, or of other characters, that ends where the next character is of the other kind. */
  lemma RunsAgree(a: string, s: string, b: string, t: string, digit: bool)
    requires a + s == b + t
    requires (forall c :: c in a ==> IsDigit(c) == digit) && forall c :: c in b ==> IsDigit(c) == digit
    requires (s != "" ==> IsDigit(s[0]) != digit) && (t != "" ==> IsDigit(t[0]) != digit)
    ensures a == b && s == t
  {
    RunLength(a, s, digit);
    RunLength(b, t, digit);
    assert a == (a + s)[..|a|] && b == (b + t)[..|b|];
    assert s == (a + s)[|a|..] && t == (b + t)[|b|..];
  }

  lemma RunLength(a: string, s: string, digit: bool)
    requires (forall c :: c in a ==> IsDigit(c) == digit) && (s != "" ==> IsDigit(s[0]) != digit)
    ensures forall k :: 0 <= k < |a| ==> IsDigit((a + s)[k]) == digit
    ensures |a| < |a + s| ==> IsDigit((a + s)[|a|]) != digit
  {
    forall k | 0 <= k < |a| ensures IsDigit((a + s)[k]) == digit {
      assert a[k] in a;
    }
  }

  lemma {:induction false} TokensUnique(a: seq<Token>, b: seq<Token>)
    requires WellFormed(a) && WellFormed(b) && Spell(a) == Spell(b)
    ensures a == b
  {
    SpellStart(a);
    SpellStart(b);
    if a != [] {
      var x, y, restA, restB := a[0], b[0], Spell(a[1..]), Spell(b[1..]);
      assert x in a && y in b;
      SpellStart(a[1..]);
      SpellStart(b[1..]);
      FirstIsNotDigit(x.unit, restA);
      FirstIsNotDigit(y.unit, restB);
      RunsAgree(x.digits, x.unit + restA, y.digits, y.unit + restB, true);
      RunsAgree(x.unit, restA, y.unit, restB, false);
      TokensUnique(a[1..], b[1..]);
    }
  }

  lemma FirstIsNotDigit(unit: string, rest: string)
    requires unit != "" && forall c :: c in unit ==> !IsDigit(c)
    ensures !IsDigit((unit + rest)[0])
  {
    assert unit[0] in unit;
  }

  function OptToken(group: Option<string>, unit: string): seq<Token> {
    match group
    case None => []
    case Some(digits) => [Token(digits, unit)]
  }

  function TailTokens(t: Tail): seq<Token>
    requires t.Units?
  {
    OptToken(t.minutes2, "m") + OptToken(t.seconds2, "s") + OptToken(t.ms, "ms") + OptToken(t.us, "us") +
    OptToken(t.ns, "ns")
  }

  function TokensOf(g: Groups): seq<Token>
    requires g.tail.Units?
  {
    OptToken(g.weeks, "w") + OptToken(g.days, "d") + OptToken(g.hours, "h") + TailTokens(g.tail)
  }

  lemma SpellOpt(group: Option<string>, unit: string)
    ensures Spell(OptToken(group, unit)) == Opt(group, unit)
  {
    if group.Some? {
      assert Spell(OptToken(group, unit)) == group.value + (unit + "");
    }
  }

  lemma SpellTail(t: Tail)
    requires t.Units?
    ensures Spell(TailTokens(t)) == TailText(t)
  {
    hide Spell, Opt, OptToken;
    var m, s, ms, us := OptToken(t.minutes2, "m"), OptToken(t.seconds2, "s"), OptToken(t.ms, "ms"), OptToken(t.us, "us");
    SpellConcat(m, s);
    SpellConcat(m + s, ms);
    SpellConcat(m + s + ms, us);
    SpellConcat(m + s + ms + us, OptToken(t.ns, "ns"));
    SpellOpt(t.minutes2, "m");
    SpellOpt(t.seconds2, "s");
    SpellOpt(t.ms, "ms");
    SpellOpt(t.us, "us");
    SpellOpt(t.ns, "ns");
  }

  /** The reading is the text, when no group uses a colon. */
  lemma SpellGroups(g: Groups)
    requires g.tail.Units? && (g.hours.Some? ==> g.separator == 'h')
    ensures Spell(TokensOf(g)) == Text(g)
  {
    hide Spell, OptToken, TailTokens, TailText;
    var w, d, h := OptToken(g.weeks, "w"), OptToken(g.days, "d"), OptToken(g.hours, "h");
    SpellConcat(w, d);
    SpellConcat(w + d, h);
    SpellConcat(w + d + h, TailTokens(g.tail));
    SpellOpt(g.weeks, "w");
    SpellOpt(g.days, "d");
    SpellOpt(g.hours, "h");
    SpellTail(g.tail);
  }

  function Lookup(ts: seq<Token>, unit: string): Option<string> {
    if ts == [] then None else if ts[0].unit == unit then Some(ts[0].digits) else Lookup(ts[1..], unit)
  }

  lemma {:induction false} LookupConcat(a: seq<Token>, b: seq<Token>, unit: string)
    ensures Lookup(a + b, unit) == if Lookup(a, unit).Some? then Lookup(a, unit) else Lookup(b, unit)
  {
    if a == [] {
      assert a + b == b;
    } else {
      assert (a + b)[1..] == a[1..] + b;
      LookupConcat(a[1..], b, unit);
    }
  }

  lemma LookupOpt(group: Option<string>, u: string, unit: string)
    ensures Lookup(OptToken(group, u), unit) == if u == unit then group else None
  {
  }

  /** The groups can be read off the tokens. */
  lemma LookupGroup(g: Groups, unit: string)
    requires g.tail.Units?
    ensures Lookup(TokensOf(g), unit) ==
      if unit == "w" then g.weeks else if unit == "d" then g.days else if unit == "h" then g.hours
      else if unit == "m" then g.tail.minutes2 else if unit == "s" then g.tail.seconds2
      else if unit == "ms" then g.tail.ms else if unit == "us" then g.tail.us
      else if unit == "ns" then g.tail.ns else None
  {
    hide Lookup, OptToken;
    var w, d, h, t := OptToken(g.weeks, "w"), OptToken(g.days, "d"), OptToken(g.hours, "h"), TailTokens(g.tail);
    LookupConcat(w, d, unit);
    LookupConcat(w + d, h, unit);
    LookupConcat(w + d + h, t, unit);
    LookupOpt(g.weeks, "w", unit);
    LookupOpt(g.days, "d", unit);
    LookupOpt(g.hours, "h", unit);
    var m, s, ms, us, ns :=
      OptToken(g.tail.minutes2, "m"), OptToken(g.tail.seconds2, "s"), OptToken(g.tail.ms, "ms"),
      OptToken(g.tail.us, "us"), OptToken(g.tail.ns, "ns");
    LookupConcat(m, s, unit);
    LookupConcat(m + s, ms, unit);
    LookupConcat(m + s + ms, us, unit);
    LookupConcat(m + s + ms + us, ns, unit);
    LookupOpt(g.tail.minutes2, "m", unit);
    LookupOpt(g.tail.seconds2, "s", unit);
    LookupOpt(g.tail.ms, "ms", unit);
    LookupOpt(g.tail.us, "us", unit);
    LookupOpt(g.tail.ns, "ns", unit);
  }

  function IfPositive(n: nat): Option<string> {
    if n > 0 then Some(Decimal(n)) else None
  }

  /** The reading `to_ttl` has in mind. */
  function GroupsOf(seconds: nat): Groups {
    var d, h, m, s := seconds / 60 / 60 / 24, seconds / 60 / 60 % 24, seconds / 60 % 60, seconds % 60;
    Groups(None, IfPositive(d), IfPositive(h), 'h',
           Units(IfPositive(m), if seconds == 0 then Some("0") else IfPositive(s), None, None, None))
  }

  lemma PartIsGroup(n: nat, unit: string)
    ensures Opt(IfPositive(n), unit) == Part(n, unit) && DigitsIfAny(IfPositive(n))
  {
  }

  lemma EmptyGroups()
    ensures forall unit :: Opt(None, unit) == ""
    ensures Opt(Some("0"), "s") == "0s" && Digits("0")
  {
  }

  lemma UnitsText(d: string, h: string, m: string, s: string)
    ensures "" + d + h + (m + s + "" + "" + "") == d + h + m + s
  {
  }

  lemma TtlIsRead(seconds: nat)
    ensures Matches(Ttl(seconds), GroupsOf(seconds)) && Text(GroupsOf(seconds)) == Ttl(seconds)
  {
    hide Decimal, Opt, Part, IfPositive;
    var d, h, m, s := seconds / 60 / 60 / 24, seconds / 60 / 60 % 24, seconds / 60 % 60, seconds % 60;
    PartIsGroup(d, "d");
    PartIsGroup(h, "h");
    PartIsGroup(m, "m");
    PartIsGroup(s, "s");
    EmptyGroups();
    UnitsText(Part(d, "d"), Part(h, "h"), Part(m, "m"), if seconds == 0 then "0s" else Part(s, "s"));
  }

  predicate Plain(s: string) {
    forall c :: c in s ==> IsDigit(c) || c == 'w' || c == 'd' || c == 'h' || c == 'm' || c == 's'
  }

  lemma TtlIsPlain(seconds: nat)
    ensures Plain(Ttl(seconds))
  {
    hide Decimal;
  }

  lemma ClockHasColon(g: Groups)
    requires g.tail.Clock? || (g.hours.Some? && g.separator == ':')
    ensures ':' in Text(g)
  {
    if g.tail.Clock? {
      assert ':' in TailText(g.tail);
    } else {
      assert ':' in [g.separator];
      assert ':' in Opt(g.hours, [g.separator]);
    }
  }

  lemma TailCharacters(t: Tail)
    requires t.Units? && Plain(TailText(t))
    requires DigitsIfAny(t.minutes2) && NumeralIfAny(t.seconds2)
    requires NumeralIfAny(t.ms) && NumeralIfAny(t.us) && NumeralIfAny(t.ns)
    ensures DigitsIfAny(t.seconds2) && DigitsIfAny(t.ms) && DigitsIfAny(t.us) && DigitsIfAny(t.ns)
  {
    hide Numeral;
    assert t.seconds2.Some? ==> Plain(t.seconds2.value);
    assert t.ms.Some? ==> Plain(t.ms.value);
    assert t.us.Some? ==> Plain(t.us.value);
    assert t.ns.Some? ==> Plain(t.ns.value);
    PlainNumeral(t.seconds2);
    PlainNumeral(t.ms);
    PlainNumeral(t.us);
    PlainNumeral(t.ns);
  }

  lemma PlainNumeral(group: Option<string>)
    requires NumeralIfAny(group) && (group.Some? ==> Plain(group.value))
    ensures DigitsIfAny(group)
  {
  }

  /** A reading of a plain string uses no colon, no fraction and no final newline. */
  lemma PlainReading(value: string, g: Groups)
    requires Matches(value, g) && Plain(value)
    ensures value == Text(g) && g.tail.Units? && (g.hours.Some? ==> g.separator == 'h')
    ensures WellFormed(TokensOf(g))
  {
    hide Numeral;
    if g.tail.Clock? || (g.hours.Some? && g.separator == ':') {
      ClockHasColon(g);
    }
    assert '\n' in Text(g) + "\n";
    TailCharacters(g.tail);
  }

  /** The groups leave no room for fractions or anything shorter than a second. */
  predicate WholeSeconds(g: Groups) {
    g.tail.Units? && g.tail.ms.None? && g.tail.us.None? && g.tail.ns.None? &&
    DigitsIfAny(g.weeks) && DigitsIfAny(g.days) && DigitsIfAny(g.hours) &&
    DigitsIfAny(g.tail.minutes2) && DigitsIfAny(g.tail.seconds2)
  }

  function NumberIfAny(group: Option<string>): nat
    requires DigitsIfAny(group)
  {
    if group.Some? then Number(group.value) else 0
  }

  /** The seconds `to_duration` adds up. */
  function SecondsOf(g: Groups): nat
    requires WholeSeconds(g)
  {
    NumberIfAny(g.weeks) * 7 * 24 * 60 * 60 + NumberIfAny(g.days) * 24 * 60 * 60 + NumberIfAny(g.hours) * 60 * 60 +
    NumberIfAny(g.tail.minutes2) * 60 + NumberIfAny(g.tail.seconds2)
  }

  lemma SecondsOfGroups(seconds: nat)
    ensures WholeSeconds(GroupsOf(seconds)) && SecondsOf(GroupsOf(seconds)) == seconds
  {
    hide Decimal, Number;
    var d, h, m, s := seconds / 60 / 60 / 24, seconds / 60 / 60 % 24, seconds / 60 % 60, seconds % 60;
    NumberOfDecimal(d);
    NumberOfDecimal(h);
    NumberOfDecimal(m);
    NumberOfDecimal(s);
    ZeroIsZero();
  }

  lemma ZeroIsZero()
    ensures Digits("0") && Number("0") == 0
  {
    assert "0"[..0] == "";
  }

  /** Duration round trip: `to_ttl` prints something the pattern matches, and every way the pattern can match it,
      whichever one the regular expression engine picks, adds up to the seconds that were printed. */
  lemma {:induction false} RoundTrip(seconds: nat, g: Groups)
    ensures Matches(Ttl(seconds), GroupsOf(seconds))
    ensures Matches(Ttl(seconds), g) ==> WholeSeconds(g) && SecondsOf(g) == seconds
    ensures Ttl(seconds) != "" && Ttl(seconds) != "never"
  {
    hide Matches, Text, Ttl, GroupsOf, TokensOf, WellFormed, WholeSeconds, SecondsOf;
    NeverIsNotPlain(seconds);
    TtlIsRead(seconds);
    if Matches(Ttl(seconds), g) {
      SameReading(seconds, g);
      SecondsOfGroups(seconds);
      SameGroupsSameSeconds(g, GroupsOf(seconds));
    }
  }

  lemma NeverIsNotPlain(seconds: nat)
    ensures Ttl(seconds) != "" && Ttl(seconds) != "never"
  {
    hide Decimal, Ttl;
    TtlIsPlain(seconds);
    assert 'n' in "never";
    TtlNotEmpty(seconds);
  }

  lemma TtlNotEmpty(seconds: nat)
    ensures Ttl(seconds) != ""
  {
    hide Decimal, Part;
    PartEmpty(seconds / 60 / 60 / 24, "d");
    PartEmpty(seconds / 60 / 60 % 24, "h");
    PartEmpty(seconds / 60 % 60, "m");
    PartEmpty(seconds % 60, "s");
  }

  ghost predicate SameGroups(g: Groups, k: Groups) {
    g.weeks == k.weeks && g.days == k.days && g.hours == k.hours && g.tail == k.tail
  }

  lemma SameGroupsSameSeconds(g: Groups, k: Groups)
    requires SameGroups(g, k) && WholeSeconds(k)
    ensures WholeSeconds(g) && SecondsOf(g) == SecondsOf(k)
  {
  }

  lemma SameReading(seconds: nat, g: Groups)
    requires Matches(Ttl(seconds), g)
    ensures SameGroups(g, GroupsOf(seconds))
  {
    hide Matches, Ttl, GroupsOf, Plain;
    TtlIsPlain(seconds);
    TtlIsRead(seconds);
    OneReading(Ttl(seconds), g, GroupsOf(seconds));
  }

  /** A plain text can be read in one way only. */
  lemma {:induction false} OneReading(value: string, g: Groups, k: Groups)
    requires Plain(value) && Matches(value, g) && Matches(value, k)
    ensures SameGroups(g, k)
  {
    hide Matches, Text, TokensOf, WellFormed, Plain;
    PlainReading(value, g);
    PlainReading(value, k);
    SpellGroups(g);
    SpellGroups(k);
    TokensUnique(TokensOf(g), TokensOf(k));
    LookupGroup(g, "w");
    LookupGroup(k, "w");
    LookupGroup(g, "d");
    LookupGroup(k, "d");
    LookupGroup(g, "h");
    LookupGroup(k, "h");
    LookupGroup(g, "m");
    LookupGroup(k, "m");
    LookupGroup(g, "s");
    LookupGroup(k, "s");
    LookupGroup(g, "ms");
    LookupGroup(k, "ms");
    LookupGroup(g, "us");
    LookupGroup(k, "us");
    LookupGroup(g, "ns");
    LookupGroup(k, "ns");
  }

  /** `to_ttl` uses no weeks, carries seconds into minutes, minutes into hours and hours into days, and leaves out what
    * is zero: however the text is read, these are its groups. */
  lemma {:induction false} TtlIsNormal(seconds: nat, g: Groups)
    requires Matches(Ttl(seconds), g)
    ensures WholeSeconds(g) && g.weeks.None? && g.days == IfPositive(seconds / 86400)
    ensures g.hours == IfPositive(seconds / 3600 % 24) && g.tail.minutes2 == IfPositive(seconds / 60 % 60)
    ensures g.tail.seconds2 == if seconds == 0 then Some("0") else IfPositive(seconds % 60)
  {
    hide Matches, Ttl, IfPositive, WholeSeconds;
    RoundTrip(seconds, g);
    SameReading(seconds, g);
    ClockParts(seconds);
  }

  lemma ClockParts(seconds: nat)
    ensures seconds / 60 / 60 / 24 == seconds / 86400 && seconds / 60 / 60 % 24 == seconds / 3600 % 24
  {
  }

  /** A duration as RouterOS prints it, weeks included. */
  function Printed(w: nat, d: nat, h: nat, m: nat, s: nat): string {
    Part(w, "w") + Part(d, "d") + Part(h, "h") + Part(m, "m") + Part(s, "s")
  }

  function GroupsFor(w: nat, d: nat, h: nat, m: nat, s: nat): Groups {
    Groups(IfPositive(w), IfPositive(d), IfPositive(h), 'h', Units(IfPositive(m), IfPositive(s), None, None, None))
  }

  lemma PrintedIsRead(w: nat, d: nat, h: nat, m: nat, s: nat)
    ensures Matches(Printed(w, d, h, m, s), GroupsFor(w, d, h, m, s))
  {
    hide Decimal, Opt, Part, IfPositive;
    PartIsGroup(w, "w");
    PartIsGroup(d, "d");
    PartIsGroup(h, "h");
    PartIsGroup(m, "m");
    PartIsGroup(s, "s");
    EmptyGroups();
    PrintedText(Part(w, "w"), Part(d, "d"), Part(h, "h"), Part(m, "m"), Part(s, "s"));
  }

  lemma PrintedText(w: string, d: string, h: string, m: string, s: string)
    ensures w + d + h + (m + s + "" + "" + "") == w + d + h + m + s
  {
  }

  lemma PrintedIsPlain(w: nat, d: nat, h: nat, m: nat, s: nat)
    ensures Plain(Printed(w, d, h, m, s))
  {
    hide Part;
    PartIsPlain(w, "w");
    PartIsPlain(d, "d");
    PartIsPlain(h, "h");
    PartIsPlain(m, "m");
    PartIsPlain(s, "s");
  }

  lemma PartIsPlain(n: nat, unit: string)
    requires Plain(unit)
    ensures Plain(Part(n, unit))
  {
    hide Decimal;
  }

  lemma SecondsPrinted(w: nat, d: nat, h: nat, m: nat, s: nat)
    ensures WholeSeconds(GroupsFor(w, d, h, m, s))
    ensures SecondsOf(GroupsFor(w, d, h, m, s)) == 604800 * w + 86400 * d + 3600 * h + 60 * m + s
  {
    hide Decimal, Number;
    NumberOfDecimal(w);
    NumberOfDecimal(d);
    NumberOfDecimal(h);
    NumberOfDecimal(m);
    NumberOfDecimal(s);
  }

  /** Any numbers of weeks, days, hours, minutes and seconds add up with their own lengths, however the text is read. */
  lemma {:induction false} PrintedRoundTrip(w: nat, d: nat, h: nat, m: nat, s: nat, g: Groups)
    requires Matches(Printed(w, d, h, m, s), g)
    ensures WholeSeconds(g) && SecondsOf(g) == 604800 * w + 86400 * d + 3600 * h + 60 * m + s
  {
    hide Matches, Printed, GroupsFor, WholeSeconds, SecondsOf, Plain;
    PrintedIsRead(w, d, h, m, s);
    PrintedIsPlain(w, d, h, m, s);
    OneReading(Printed(w, d, h, m, s), g, GroupsFor(w, d, h, m, s));
    SecondsPrinted(w, d, h, m, s);
    SameGroupsSameSeconds(g, GroupsFor(w, d, h, m, s));
  }

  /** Different TTLs print differently. */
  lemma {:induction false} TtlInjective(a: nat, b: nat)
    requires Ttl(a) == Ttl(b)
    ensures a == b
  {
    hide Ttl, GroupsOf, Matches, WholeSeconds, SecondsOf;
    RoundTrip(a, GroupsOf(a));
    RoundTrip(b, GroupsOf(a));
  }

  // ----- nanoseconds, in double precision -----

  const MANTISSA := 0x20_0000_0000_0000
  const NANOS := 1_000_000_000

  /** The exponent at which a number fits the 53 bits of a double. */
  function Exponent(x: nat): nat {
    if x < MANTISSA then 0 else 1 + Exponent(x / 2)
  }

  /** The double nearest to a natural number, ties to even. */
  function Rounded(x: nat): nat {
    var unit := Pow2(Exponent(x));
    var q, r := x / unit, x % unit;
    if 2 * r < unit || (2 * r == unit && q % 2 == 0) then q * unit else (q + 1) * unit
  }

  lemma {:induction false} ExponentOfMultiple(k: nat, j: nat)
    requires k < MANTISSA
    ensures Exponent(k * Pow2(j)) <= j
  {
    if j > 0 && k * Pow2(j) >= MANTISSA {
      assert k * Pow2(j) == 2 * (k * Pow2(j - 1));
      ExponentOfMultiple(k, j - 1);
    }
  }

  /** A number with at most 53 significant bits is kept. */
  lemma {:induction false} RoundedExact(k: nat, j: nat)
    requires k < MANTISSA
    ensures Rounded(k * Pow2(j)) == k * Pow2(j)
  {
    var x := k * Pow2(j);
    ExponentOfMultiple(k, j);
    var e := Exponent(x);
    Pow2Adds(e, j - e);
    MulAssociates(k, Pow2(j - e), Pow2(e));
    assert x == (k * Pow2(j - e)) * Pow2(e);
    ExactMultiple(k * Pow2(j - e), Pow2(e));
  }

  lemma ExactMultiple(q: nat, unit: nat)
    requires unit >= 1
    ensures (q * unit) / unit == q && (q * unit) % unit == 0
  {
    DivisionUnique(q * unit, unit, q, 0);
    assert q * unit == ((q * unit) / unit) * unit + (q * unit) % unit;
  }

  /** `int(seconds * 1e9)`. */
  function Nanoseconds(seconds: nat): nat {
    Rounded(seconds * NANOS)
  }

  /** No rounding spoils the nanoseconds of a TTL below 2^32, nor for some while beyond. */
  lemma {:induction false} NanosecondsExact(seconds: nat)
    requires seconds <= 4_611_686_018
    ensures Nanoseconds(seconds) == seconds * NANOS
  {
    assert Pow2(9) == 512;
    assert seconds * NANOS == (seconds * 1_953_125) * Pow2(9);
    RoundedExact(seconds * 1_953_125, 9);
  }

  /** A number is kept exactly when it is a multiple of the last kept place. */
  lemma {:induction false} RoundedIff(x: nat)
    ensures Rounded(x) == x <==> x % Pow2(Exponent(x)) == 0
  {
    var unit := Pow2(Exponent(x));
    var q := x / unit;
    assert x == q * unit + x % unit;
    assert (q + 1) * unit == q * unit + unit;
  }

  lemma {:induction false} ExponentRange(x: nat)
    ensures x < MANTISSA * Pow2(Exponent(x))
    ensures Exponent(x) > 0 ==> x >= MANTISSA / 2 * Pow2(Exponent(x))
  {
    if x >= MANTISSA {
      ExponentRange(x / 2);
      var p := Pow2(Exponent(x / 2));
      assert Pow2(Exponent(x)) == 2 * p;
      if Exponent(x / 2) == 0 {
        assert p == 1;
      }
    }
  }

  function Distance(a: int, b: int): (d: nat)
    ensures d == a - b || d == b - a
  {
    if a < b then b - a else a - b
  }

  /** The two multiples of the last kept place around a number, and which of them is taken. */
  lemma RoundingCases(x: nat) returns (q: nat, below: nat, r: nat)
    ensures var unit := Pow2(Exponent(x));
      && q == x / unit && r == x % unit < unit && below == q * unit && x == below + r && (q + 1) * unit == below + unit
      && (2 * r < unit ==> Rounded(x) == below) && (2 * r > unit ==> Rounded(x) == below + unit)
      && (2 * r == unit ==> Rounded(x) == if q % 2 == 0 then below else below + unit)
  {
    hide Exponent, Pow2;
    var unit := Pow2(Exponent(x));
    q, r := x / unit, x % unit;
    below := q * unit;
    assert (q + 1) * unit == below + unit;
  }

  /** No multiple of the last kept place is nearer. */
  lemma {:induction false} NearestMultiple(x: nat, z: nat)
    ensures Distance(Rounded(x), x) <= Distance(z * Pow2(Exponent(x)), x)
  {
    hide Rounded, Exponent, Pow2;
    var unit := Pow2(Exponent(x));
    var q, below, r := RoundingCases(x);
    var place := z * unit;
    MultipleOutside(unit, z, q, place, below);
  }

  lemma MultipleOutside(unit: nat, z: nat, q: nat, place: nat, below: nat)
    requires unit >= 1 && place == z * unit && below == q * unit
    ensures place <= below || place >= below + unit
  {
    if z < q {
      MultiplesApart(unit, z, q);
    } else if z > q {
      MultiplesApart(unit, q, z);
    }
  }

  /** The rounded number is a double, k * 2^j with 53 bits for k, and none is nearer. */
  lemma {:induction false} RoundedIsNearest(x: nat, k: nat, j: nat)
    requires k < MANTISSA
    ensures Distance(Rounded(x), x) <= Distance(k * Pow2(j), x)
  {
    hide Rounded, Exponent, Pow2;
    var e := Exponent(x);
    ExponentRange(x);
    if j >= e {
      Pow2Adds(j - e, e);
      MulAssociates(k, Pow2(j - e), Pow2(e));
      NearestMultiple(x, k * Pow2(j - e));
    } else {
      BelowBinade(k, j, e);
      NearestMultiple(x, MANTISSA / 2);
    }
  }

  lemma BelowBinade(k: nat, j: nat, e: nat)
    requires k < MANTISSA && j < e
    ensures k * Pow2(j) <= MANTISSA / 2 * Pow2(e)
  {
    Pow2Order(j, e - 1);
    MulMonotone(k, MANTISSA, Pow2(j), Pow2(e - 1));
  }

  /** What it is a multiple of, at most 53 bits times; and halfway between two of them the even one is taken. */
  lemma {:induction false} RoundedIsDouble(x: nat) returns (k: nat)
    ensures k <= MANTISSA && Rounded(x) == k * Pow2(Exponent(x))
    ensures 2 * (x % Pow2(Exponent(x))) == Pow2(Exponent(x)) ==> k % 2 == 0
  {
    hide Rounded, Exponent, Pow2;
    var q, below, r := RoundingCases(x);
    ExponentRange(x);
    QuotientBelow(x, Pow2(Exponent(x)), MANTISSA);
    k := if Rounded(x) == below then q else q + 1;
  }

  lemma {:induction false} HalvesDivide(x: nat, k: nat)
    requires k > 0
    ensures x % Pow2(k) == 0 <==> x % 2 == 0 && (x / 2) % Pow2(k - 1) == 0
  {
    var h := Pow2(k - 1);
    var q, r := (x / 2) / h, (x / 2) % h;
    assert x == 2 * (q * h + r) + x % 2;
    assert 2 * (q * h) == q * Pow2(k);
    DivisionUnique(x, Pow2(k), q, 2 * r + x % 2);
    assert x == (x / Pow2(k)) * Pow2(k) + x % Pow2(k);
  }

  lemma HalfOfProduct(x: nat, m: nat)
    requires m % 2 == 1
    ensures (x * m) % 2 == x % 2
    ensures x % 2 == 0 ==> (x * m) / 2 == (x / 2) * m
  {
    var h := m / 2;
    assert x * m == 2 * (x * h) + x by {
      assert m == 2 * h + 1;
    }
    if x % 2 == 0 {
      assert x * m == 2 * ((x / 2) * m);
    }
  }

  /** An odd factor does not help a number to be a multiple of a power of two. */
  lemma {:induction false} OddFactor(x: nat, m: nat, k: nat)
    requires m % 2 == 1
    ensures (x * m) % Pow2(k) == 0 <==> x % Pow2(k) == 0
  {
    if k > 0 {
      HalvesDivide(x, k);
      HalvesDivide(x * m, k);
      HalfOfProduct(x, m);
      if x % 2 == 0 {
        OddFactor(x / 2, m, k - 1);
      }
    }
  }

  lemma HalfOfShared(x: nat, j: nat)
    requires j > 0
    ensures (x * Pow2(j)) % 2 == 0 && (x * Pow2(j)) / 2 == x * Pow2(j - 1)
  {
    assert x * Pow2(j) == 2 * (x * Pow2(j - 1));
  }

  lemma {:induction false} SharedFactor(x: nat, j: nat, k: nat)
    ensures (x * Pow2(j)) % Pow2(j + k) == 0 <==> x % Pow2(k) == 0
  {
    if j > 0 {
      HalfOfShared(x, j);
      HalvesDivide(x * Pow2(j), j + k);
      SharedFactor(x, j - 1, k);
    }
  }

  /** 10^9 is 5^9 times 2^9: a double keeps s * 10^9 if its last place is at most 2^9, or if s makes up for the rest. */
  predicate FitsDouble(seconds: nat) {
    var e := Exponent(seconds * NANOS);
    e <= 9 || seconds % Pow2(e - 9) == 0
  }

  /** The product is exact for exactly these seconds. */
  lemma {:induction false} NanosecondsExactIff(seconds: nat)
    ensures Nanoseconds(seconds) == seconds * NANOS <==> FitsDouble(seconds)
  {
    hide Rounded, Exponent;
    var x, y := seconds * NANOS, seconds * 1_953_125;
    var e := Exponent(x);
    assert Pow2(9) == 512;
    assert x == y * Pow2(9);
    RoundedIff(x);
    if e <= 9 {
      Pow2Adds(9 - e, e);
      MulAssociates(y, Pow2(9 - e), Pow2(e));
      ExactMultiple(y * Pow2(9 - e), Pow2(e));
    } else {
      SharedFactor(y, 9, e - 9);
      OddFactor(seconds, 1_953_125, e - 9);
    }
  }

  lemma {:induction false} ExponentBetween(x: nat, e: nat)
    requires MANTISSA * Pow2(e) <= x < MANTISSA * Pow2(e + 1)
    ensures Exponent(x) == e + 1
  {
    if e > 0 {
      ExponentBetween(x / 2, e - 1);
    }
  }

  /** The first inexact seconds are the odd ones from 4611686019 on; up to 9223372036 the even ones are still exact. */
  lemma NanosecondsInexact(seconds: nat)
    requires 4_611_686_019 <= seconds <= 9_223_372_036
    ensures Nanoseconds(seconds) == seconds * NANOS <==> seconds % 2 == 0
    ensures Nanoseconds(4_611_686_019) != 4_611_686_019 * NANOS
  {
    hide Rounded, Nanoseconds;
    assert Pow2(1) == 2 && Pow2(9) == 512 && Pow2(10) == 1024;
    ExponentBetween(seconds * NANOS, 9);
    ExponentBetween(4_611_686_019 * NANOS, 9);
    NanosecondsExactIff(seconds);
    NanosecondsExactIff(4_611_686_019);
  }

  /** `to_duration(to_ttl(n))` is n * 10^9 ns for exactly the TTLs whose nanoseconds a double can hold, and these are
    * all below 2^32. */
  lemma {:induction false} TtlToNanoseconds(seconds: nat, g: Groups)
    requires Matches(Ttl(seconds), g)
    ensures WholeSeconds(g)
    ensures Nanoseconds(SecondsOf(g)) == seconds * NANOS <==> FitsDouble(seconds)
    ensures seconds < 0x1_0000_0000 ==> Nanoseconds(SecondsOf(g)) == seconds * NANOS
  {
    hide Ttl, Matches, WholeSeconds, SecondsOf, Rounded, FitsDouble;
    RoundTrip(seconds, g);
    NanosecondsExactIff(seconds);
    if seconds < 0x1_0000_0000 {
      NanosecondsExact(seconds);
    }
  }
}
