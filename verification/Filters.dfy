/**
 * Rows of the events table and the WHERE clauses the store derives from a
 * filter, with the plain meaning of each filter field beside them.
 */
module Filters {
  import opened Wrappers
  import opened Like

  datatype Row = Row(ts: int, device: string, vendor: string, src: string, dst: string,
                     proto: string, dstPort: int, action: string, rule: string)

  /** A filter; an empty field is one that was not given. */
  datatype Filter = Filter(device: string, vendor: string, ip: string, src: string, dst: string,
                           rule: string, proto: string, port: string, action: string)

  /**
   * alias: the other spelling of a protocol; wide: the value of a character outside ASCII that
   * Unicode counts as a decimal digit.
   */
  datatype Env = Env(alias: string -> Option<string>, wide: char -> Option<nat>)

  datatype Column = Device | Vendor | Src | Dst | Rule | Proto | Action

  function Text(r: Row, c: Column): string {
    match c
    case Device => r.device
    case Vendor => r.vendor
    case Src => r.src
    case Dst => r.dst
    case Rule => r.rule
    case Proto => r.proto
    case Action => r.action
  }

  /** One condition of a WHERE clause, its arguments filled in. */
  datatype Clause =
    | Equal(col: Column, text: string)
    | EitherLike(col: Column, col2: Column, pattern: string)
    | LikeText(col: Column, pattern: string, neg: bool)
    | LikeOrEqual(col: Column, pattern: string, alt: string, neg: bool)
    | PortEqual(port: int, neg: bool)
    | PortLike(pattern: string, neg: bool)
    | OneOf(col: Column, texts: seq<string>)
    | TsFrom(ts: int)
    | TsTo(ts: int)
    | IdBelow(id: int)
    | IdFrom(id: int)
    | IdAbove(id: int)
    | IdTo(id: int)

  function Digit(d: nat): char
    requires d < 10
  {
    "0123456789"[d]
  }

  function DecimalNat(n: nat): string {
    (if n < 10 then "" else DecimalNat(n / 10)) + [Digit(n % 10)]
  }

  /** The decimal text of a stored integer. */
  function Decimal(n: int): string {
    if n < 0 then "-" + DecimalNat(-n) else DecimalNat(n)
  }

  /** The decimal text puts the last digit behind the text of the tens, which has no leading zero. */
  lemma DecimalDigits(n: nat, d: nat)
    requires d < 10
    ensures |DecimalNat(d)| == 1 && DecimalNat(d)[0] as int == '0' as int + d
    ensures n > 0 ==> |DecimalNat(10 * n + d)| >= 2 && DecimalNat(10 * n + d) == DecimalNat(n) + DecimalNat(d)
  {
    assert (10 * n + d) / 10 == n && (10 * n + d) % 10 == d;
  }

  predicate Holds(c: Clause, id: int, r: Row) {
    match c
    case Equal(col, text) => Text(r, col) == text
    case EitherLike(a, b, pattern) => Matches(pattern, Text(r, a), true) || Matches(pattern, Text(r, b), true)
    case LikeText(col, pattern, neg) => Matches(pattern, Text(r, col), true) != neg
    case LikeOrEqual(col, pattern, alt, neg) =>
      (Matches(pattern, Text(r, col), true) || Text(r, col) == alt) != neg
    case PortEqual(port, neg) => (r.dstPort == port) != neg
    case PortLike(pattern, neg) => Matches(pattern, Decimal(r.dstPort), false) != neg
    case OneOf(col, texts) => Text(r, col) in texts
    case TsFrom(ts) => r.ts >= ts
    case TsTo(ts) => r.ts <= ts
    case IdBelow(n) => id < n
    case IdFrom(n) => id >= n
    case IdAbove(n) => id > n
    case IdTo(n) => id <= n
  }

  predicate AllHold(cs: seq<Clause>, id: int, r: Row) {
    forall i :: 0 <= i < |cs| ==> Holds(cs[i], id, r)
  }

  // ---- what a filter means ------------------------------------------------------------

  /** A leading "!" negates a term. */
  function Negated(s: string): bool {
    |s| > 0 && s[0] == '!'
  }

  function Term(s: string): string {
    if Negated(s) then s[1..] else s
  }

  /** The value of a decimal digit, full-width and other scripts' digits included. */
  function DecimalDigit(env: Env, c: char): Option<nat> {
    if c as int >= 128 then env.wide(c)
    else if '0' <= c <= '9' then Some((c - '0') as nat)
    else None
  }

  function Number(env: Env, digits: string): nat {
    if |digits| == 0 then 0
    else
      var d := DecimalDigit(env, digits[|digits| - 1]);
      10 * Number(env, digits[..|digits| - 1]) + if d.Some? then d.value else 0
  }

  /** Reading the decimal text of a number gives the number. */
  lemma {:induction false} NumberOfDecimal(env: Env, n: nat)
    ensures AllDigits(env, DecimalNat(n)) && Number(env, DecimalNat(n)) == n
  {
    hide Number, AllDigits, DecimalNat;
    DecimalEnds(n);
    var rest, last := if n < 10 then "" else DecimalNat(n / 10), Digit(n % 10);
    if n >= 10 {
      NumberOfDecimal(env, n / 10);
    }
    NumberPush(env, rest, n % 10);
  }

  lemma DecimalEnds(n: nat)
    ensures DecimalNat(n) == (if n < 10 then "" else DecimalNat(n / 10)) + [Digit(n % 10)]
  {
  }

  lemma NumberPush(env: Env, rest: string, d: nat)
    requires d < 10
    ensures Number(env, rest + [Digit(d)]) == 10 * Number(env, rest) + d && Number(env, "") == 0
    ensures rest == "" || AllDigits(env, rest) ==> AllDigits(env, rest + [Digit(d)])
  {
    assert DecimalDigit(env, Digit(d)) == Some(d);
    assert (rest + [Digit(d)])[..|rest|] == rest;
  }

  predicate AllDigits(env: Env, s: string) {
    |s| > 0 && forall i :: 0 <= i < |s| ==> DecimalDigit(env, s[i]).Some?
  }

  /** What the request handler lets through as a port: decimal digits, after optional "!" and "=". */
  predicate ValidPort(env: Env, port: string) {
    port == "" ||
    (var p := Term(port); if |p| > 0 && p[0] == '=' then AllDigits(env, p[1..]) else AllDigits(env, p))
  }

  const BLOCK_ACTIONS: seq<string> := ["Block", "Drop", "Reject"]

  predicate TextSelected(term: string, value: string) {
    term == "" || Contains(value, Term(term)) != Negated(term)
  }

  predicate ProtoSelected(term: string, value: string, env: Env) {
    term == "" || (Contains(value, Term(term)) || env.alias(Term(term)) == Some(value)) != Negated(term)
  }

  predicate PortSelected(env: Env, port: string, value: int) {
    port == "" ||
    (var p := Term(port);
     if |p| > 0 && p[0] == '=' then (value == Number(env, p[1..])) != Negated(port)
     else StartsWith(Decimal(value), p) != Negated(port))
  }

  predicate HeadSelected(f: Filter, r: Row) {
    (f.device == "" || r.device == f.device) &&
    (f.vendor == "" || r.vendor == f.vendor) &&
    (f.ip == "" || Contains(r.src, f.ip) || Contains(r.dst, f.ip))
  }

  predicate ActionSelected(action: string, value: string) {
    if action == "blocked" then value in BLOCK_ACTIONS else action == "" || value == action
  }

  /** Is the row one the filter asks for? */
  predicate Selected(f: Filter, env: Env, r: Row) {
    HeadSelected(f, r) && TextSelected(f.src, r.src) && TextSelected(f.dst, r.dst) && TextSelected(f.rule, r.rule) &&
    ProtoSelected(f.proto, r.proto, env) && PortSelected(env, f.port, r.dstPort) && ActionSelected(f.action, r.action)
  }

  /** The same said field by field: what the search page promises of each of its fields. */
  lemma SelectedExactly(f: Filter, env: Env, r: Row)
    ensures Selected(f, env, r) <==>
      (f.device != "" ==> r.device == f.device) && (f.vendor != "" ==> r.vendor == f.vendor) &&
      (f.ip != "" ==> Contains(r.src, f.ip) || Contains(r.dst, f.ip)) &&
      (f.src != "" ==> if f.src[0] == '!' then !Contains(r.src, f.src[1..]) else Contains(r.src, f.src)) &&
      (f.dst != "" ==> if f.dst[0] == '!' then !Contains(r.dst, f.dst[1..]) else Contains(r.dst, f.dst)) &&
      (f.rule != "" ==> if f.rule[0] == '!' then !Contains(r.rule, f.rule[1..]) else Contains(r.rule, f.rule)) &&
      (f.proto != "" ==>
        if f.proto[0] == '!' then !Contains(r.proto, f.proto[1..]) && env.alias(f.proto[1..]) != Some(r.proto)
        else Contains(r.proto, f.proto) || env.alias(f.proto) == Some(r.proto)) &&
      PortSelected(env, f.port, r.dstPort) &&
      (f.action == "blocked" ==> r.action == "Block" || r.action == "Drop" || r.action == "Reject") &&
      (f.action != "blocked" && f.action != "" ==> r.action == f.action)
  {
    hide Contains, PortSelected;
  }

  /** The four ways to ask for a port. */
  lemma PortSelectedExactly(env: Env, digits: string, port: int)
    requires digits != "" && digits[0] != '!' && digits[0] != '='
    ensures PortSelected(env, "", port)
    ensures PortSelected(env, digits, port) <==> StartsWith(Decimal(port), digits)
    ensures PortSelected(env, "!" + digits, port) <==> !StartsWith(Decimal(port), digits)
    ensures PortSelected(env, "=" + digits, port) <==> port == Number(env, digits)
    ensures PortSelected(env, "!=" + digits, port) <==> port != Number(env, digits)
  {
    hide StartsWith, Number;
    assert ("!" + digits)[1..] == digits && ("=" + digits)[1..] == digits;
    assert ("!=" + digits)[1..] == "=" + digits;
  }

  /** Filters that no index serves. */
  predicate Scanning(f: Filter) {
    f.vendor != "" || f.ip != "" || f.src != "" || f.dst != "" || f.rule != "" || f.proto != "" ||
    f.port != "" || f.action != ""
  }

  // ---- deriving the clauses ---------------------------------------------------------------

  /** The clause of one of the four negatable substring fields. */
  function TermClause(col: Column, term: string, env: Env): Clause {
    var alt := if col == Proto then env.alias(Term(term)) else None;
    if alt.None? then LikeText(col, Pattern(Term(term)), Negated(term))
    else LikeOrEqual(col, Pattern(Term(term)), alt.value, Negated(term))
  }

  lemma TermClauseMeans(col: Column, term: string, env: Env, id: int, r: Row)
    ensures Holds(TermClause(col, term, env), id, r) <==>
      (Contains(Text(r, col), Term(term)) || (col == Proto && env.alias(Term(term)) == Some(Text(r, col)))) !=
      Negated(term)
  {
    PatternIsContains(Term(term), Text(r, col));
  }

  /**
   * With a sign in front a term selects exactly the rows that it does not select taken literally:
   * for a term without a sign of its own, those that its own clause does not select.
   */
  lemma NegationIsComplement(col: Column, term: string, env: Env, id: int, r: Row)
    ensures Holds(TermClause(col, "!" + term, env), id, r) <==>
      !(Contains(Text(r, col), term) || (col == Proto && env.alias(term) == Some(Text(r, col))))
    ensures !Negated(term) ==>
      (Holds(TermClause(col, "!" + term, env), id, r) <==> !Holds(TermClause(col, term, env), id, r))
  {
    hide Contains;
    assert ("!" + term)[1..] == term;
    TermClauseMeans(col, "!" + term, env, id, r);
    TermClauseMeans(col, term, env, id, r);
  }

  /** The port clause, with its two optional signs taken off. */
  method PortClause(env: Env, text: string) returns (c: Clause)
    requires text != "" && ValidPort(env, text)
    ensures forall id, r :: Holds(c, id, r) <==> PortSelected(env, text, r.dstPort)
  {
    var port, neg := text, false;
    if port[0] == '!' {
      port, neg := port[1..], true;
    }
    if port[0] == '=' {
      c := PortEqual(Number(env, port[1..]), neg);
    } else {
      c := PortLike(port + "%", neg);
      forall id, r: Row
        ensures Holds(c, id, r) <==> PortSelected(env, text, r.dstPort)
      {
        MatchesPrefix(port, Decimal(r.dstPort));
      }
    }
  }

  lemma Push(cs: seq<Clause>, c: Clause)
    ensures forall id, r :: AllHold(cs + [c], id, r) <==> AllHold(cs, id, r) && Holds(c, id, r)
  {
    forall id, r: Row
      ensures AllHold(cs + [c], id, r) <==> AllHold(cs, id, r) && Holds(c, id, r)
    {
      assert (cs + [c])[|cs|] == c;
      assert forall i :: 0 <= i < |cs| ==> (cs + [c])[i] == cs[i];
    }
  }

  method HeadClauses(f: Filter) returns (cs: seq<Clause>)
    ensures forall id, r :: AllHold(cs, id, r) <==> HeadSelected(f, r)
  {
    cs := [];
    hide AllHold, Matches, Pattern, Contains;
    assert forall id, r :: AllHold(cs, id, r) by {
      assert forall id, r :: AllHold([], id, r) by { NoClauses(); }
    }
    if f.device != "" {
      Push(cs, Equal(Device, f.device));
      cs := cs + [Equal(Device, f.device)];
    }
    if f.vendor != "" {
      Push(cs, Equal(Vendor, f.vendor));
      cs := cs + [Equal(Vendor, f.vendor)];
    }
    if f.ip != "" {
      var like := EitherLike(Src, Dst, Pattern(f.ip));
      Push(cs, like);
      cs := cs + [like];
      forall r: Row
        ensures Holds(like, 0, r) <==> Contains(r.src, f.ip) || Contains(r.dst, f.ip)
      {
        PatternIsContains(f.ip, r.src);
        PatternIsContains(f.ip, r.dst);
      }
      assert forall id, r :: Holds(like, id, r) <==> Holds(like, 0, r);
    }
  }

  lemma NoClauses()
    ensures forall id, r :: AllHold([], id, r)
  {
  }

  /** The four negatable fields in the order of the store. */
  function FieldColumn(k: nat): Column {
    if k == 0 then Src else if k == 1 then Dst else if k == 2 then Rule else Proto
  }

  function FieldTerm(f: Filter, k: nat): string {
    if k == 0 then f.src else if k == 1 then f.dst else if k == 2 then f.rule else f.proto
  }

  predicate FieldSelected(f: Filter, env: Env, r: Row, k: nat) {
    if k == 3 then ProtoSelected(f.proto, r.proto, env)
    else TextSelected(FieldTerm(f, k), Text(r, FieldColumn(k)))
  }

  method FieldClauses(f: Filter, env: Env, cs0: seq<Clause>) returns (cs: seq<Clause>)
    ensures forall id, r :: AllHold(cs, id, r) <==>
      AllHold(cs0, id, r) && forall k :: 0 <= k < 4 ==> FieldSelected(f, env, r, k)
  {
    cs := cs0;
    hide AllHold, TermClause, Contains, Holds;
    for k := 0 to 4
      invariant forall id, r :: AllHold(cs, id, r) <==>
        AllHold(cs0, id, r) && forall j :: 0 <= j < k ==> FieldSelected(f, env, r, j)
    {
      var term := FieldTerm(f, k);
      if term != "" {
        var c := TermClause(FieldColumn(k), term, env);
        Push(cs, c);
        cs := cs + [c];
        forall id, r: Row
          ensures Holds(c, id, r) <==> FieldSelected(f, env, r, k)
        {
          TermClauseMeans(FieldColumn(k), term, env, id, r);
        }
      }
    }
  }

  /** The clauses of a filter, appended field by field, select exactly the rows it asks for. */
  method FilterClauses(f: Filter, env: Env) returns (cs: seq<Clause>)
    requires ValidPort(env, f.port)
    ensures forall id, r :: AllHold(cs, id, r) <==> Selected(f, env, r)
  {
    cs := HeadClauses(f);
    cs := FieldClauses(f, env, cs);
    ghost var cs1 := cs;
    hide AllHold, Contains, TextSelected, ProtoSelected, PortSelected;
    if f.port != "" {
      var c := PortClause(env, f.port);
      Push(cs, c);
      cs := cs + [c];
    }
    assert forall id, r :: AllHold(cs, id, r) <==> AllHold(cs1, id, r) && PortSelected(env, f.port, r.dstPort) by {
      NoPort(env);
    }
    if f.action == "blocked" {
      Push(cs, OneOf(Action, BLOCK_ACTIONS));
      cs := cs + [OneOf(Action, BLOCK_ACTIONS)];
    } else if f.action != "" {
      Push(cs, Equal(Action, f.action));
      cs := cs + [Equal(Action, f.action)];
    }
    assert forall id, r :: AllHold(cs, id, r) <==>
      AllHold(cs1, id, r) && PortSelected(env, f.port, r.dstPort) && ActionSelected(f.action, r.action);
    forall r: Row
      ensures Selected(f, env, r) <==>
        HeadSelected(f, r) && (forall k :: 0 <= k < 4 ==> FieldSelected(f, env, r, k)) &&
        PortSelected(env, f.port, r.dstPort) && ActionSelected(f.action, r.action)
    {
      SelectedParts(f, env, r);
    }
  }

  lemma NoPort(env: Env)
    ensures forall v :: PortSelected(env, "", v)
  {
  }

  lemma SelectedParts(f: Filter, env: Env, r: Row)
    ensures Selected(f, env, r) <==>
      HeadSelected(f, r) && (forall k :: 0 <= k < 4 ==> FieldSelected(f, env, r, k)) &&
      PortSelected(env, f.port, r.dstPort) && ActionSelected(f.action, r.action)
  {
    hide Contains, TextSelected, ProtoSelected, PortSelected;
    assert FieldSelected(f, env, r, 0) <==> TextSelected(f.src, r.src);
    assert FieldSelected(f, env, r, 1) <==> TextSelected(f.dst, r.dst);
    assert FieldSelected(f, env, r, 2) <==> TextSelected(f.rule, r.rule);
    assert FieldSelected(f, env, r, 3) <==> ProtoSelected(f.proto, r.proto, env);
  }
}
