/**
 What each operator of a policy condition answers, by its names in a policy and in terms of the two
 values alone.
 */
module PolicyOperators {
  import opened Wrappers
  import opened Substring
  import opened PolicyEvaluator

  // ---------------------------------------------------------------------------
  // Names
  // ---------------------------------------------------------------------------

  lemma OrderNames(op: string)
    ensures op in {"gt", ">"} ==> OperatorOf(op) == Some(Gt)
    ensures op in {"gte", ">="} ==> OperatorOf(op) == Some(Gte)
    ensures op in {"lt", "<"} ==> OperatorOf(op) == Some(Lt)
    ensures op in {"lte", "<="} ==> OperatorOf(op) == Some(Lte)
    ensures op == "between" ==> OperatorOf(op) == Some(InRange)
  {
  }

  lemma TextNames(op: string)
    ensures op == "in" ==> OperatorOf(op) == Some(In)
    ensures op == "contains" ==> OperatorOf(op) == Some(Includes)
    ensures op == "starts_with" ==> OperatorOf(op) == Some(StartsWith)
    ensures op == "ends_with" ==> OperatorOf(op) == Some(EndsIn)
    ensures op == "regex" ==> OperatorOf(op) == Some(Regex)
    ensures op == "matches_oui" ==> OperatorOf(op) == Some(Oui)
  {
  }

  lemma OtherNames(op: string)
    ensures op in {"equals", "eq", "=="} ==> OperatorOf(op) == Some(IsEqual)
    ensures op == "exists" ==> OperatorOf(op) == Some(Exists)
    ensures op == "is_empty" ==> OperatorOf(op) == Some(IsEmpty)
    ensures op == "is_member_of" ==> OperatorOf(op) == Some(MemberOf)
  {
  }

  const NAMES := {
    "equals", "eq", "==", "not_equals", "ne", "!=", "in", "not_in", "contains", "not_contains", "starts_with", "ends_with",
    "gt", ">", "gte", ">=", "lt", "<", "lte", "<=", "between", "regex", "exists", "not_exists", "is_empty", "is_not_empty",
    "is_member_of", "matches_oui"}

  /** Any other name holds of nothing. */
  lemma UnknownNameHoldsOfNothing(h: Host, a: Value, op: string, e: Value)
    requires op !in NAMES
    ensures Compare(h, a, op, e) == Some(false)
  {
  }

  lemma ByName(h: Host, a: Value, op: string, e: Value, o: Operator)
    requires OperatorOf(op) == Some(o)
    ensures Compare(h, a, op, e) == CompareBy(h, a, o, e)
  {
  }

  // ---------------------------------------------------------------------------
  // Values that count as nothing, and values that are normalised
  // ---------------------------------------------------------------------------

  predicate Falsy(v: Value) {
    v == Null || v == Bool(false) || v == Num(0.0) || v == Str("") || v == List([]) || v == Dict(map[])
  }

  /** What is converted to a number: a value that counts as nothing is 0. */
  function Side(v: Value): Value {
    if Falsy(v) then Num(0.0) else v
  }

  lemma FalsyExactly(v: Value)
    ensures Truthy(v) <==> !Falsy(v)
    ensures OrZero(v) == Side(v)
  {
  }

  /** Only text is normalised: to a truth value where it spells one, else to lower case without blanks around it. */
  lemma NormalizesExactly(h: Host, v: Value)
    ensures !v.Str? ==> Normalize(h, v) == v
    ensures v.Str? ==>
              var t := h.strip(h.lower(v.s));
              && (Normalize(h, v) == Bool(true) <==> t == "true" || t == "yes" || t == "1")
              && (Normalize(h, v) == Bool(false) <==> t == "false" || t == "no" || t == "0")
              && (Normalize(h, v) == Str(t) || Normalize(h, v).Bool?)
  {
  }

  // ---------------------------------------------------------------------------
  // Order
  // ---------------------------------------------------------------------------

  lemma Comparisons(h: Host, a: Value, e: Value)
    ensures CompareBy(h, a, Gt, e) == CompareNumbers(h, a, e, (x, y) => x > y)
    ensures CompareBy(h, a, Gte, e) == CompareNumbers(h, a, e, (x, y) => x >= y)
    ensures CompareBy(h, a, Lt, e) == CompareNumbers(h, a, e, (x, y) => x < y)
    ensures CompareBy(h, a, Lte, e) == CompareNumbers(h, a, e, (x, y) => x <= y)
  {
  }

  lemma NumbersOf(h: Host, a: Value, e: Value, holds: (real, real) -> bool)
    ensures CompareNumbers(h, a, e, holds)
         == if h.number(Side(a)).Number? && h.number(Side(e)).Number? then Some(holds(h.number(Side(a)).x, h.number(Side(e)).x))
            else if h.number(Side(a)).NoNumber? || (h.number(Side(a)).Number? && h.number(Side(e)).NoNumber?) then Some(false)
            else None
  {
    FalsyExactly(a);
    FalsyExactly(e);
  }

  /** Two numbers are compared as numbers, under every name of each comparison. */
  lemma NumbersCompare(h: Host, a: Value, op: string, e: Value, x: real, y: real)
    requires h.number(Side(a)) == Number(x) && h.number(Side(e)) == Number(y)
    ensures op in {"gt", ">"} ==> Compare(h, a, op, e) == Some(x > y)
    ensures op in {"gte", ">="} ==> Compare(h, a, op, e) == Some(x >= y)
    ensures op in {"lt", "<"} ==> Compare(h, a, op, e) == Some(x < y)
    ensures op in {"lte", "<="} ==> Compare(h, a, op, e) == Some(x <= y)
  {
    OrderNames(op);
    OrderBy(h, a, e, x, y);
  }

  lemma OrderBy(h: Host, a: Value, e: Value, x: real, y: real)
    requires h.number(Side(a)) == Number(x) && h.number(Side(e)) == Number(y)
    ensures CompareBy(h, a, Gt, e) == Some(x > y) && CompareBy(h, a, Gte, e) == Some(x >= y)
    ensures CompareBy(h, a, Lt, e) == Some(x < y) && CompareBy(h, a, Lte, e) == Some(x <= y)
  {
    Comparisons(h, a, e);
    NumbersOf(h, a, e, (x, y) => x > y);
    NumbersOf(h, a, e, (x, y) => x >= y);
    NumbersOf(h, a, e, (x, y) => x < y);
    NumbersOf(h, a, e, (x, y) => x <= y);
  }

  predicate IsOrder(op: string) {
    op in {"gt", ">", "gte", ">=", "lt", "<", "lte", "<="}
  }

  /** What is no number makes each of them false, and a number too large raises, whichever is converted first. */
  lemma NonNumbersCompare(h: Host, a: Value, op: string, e: Value)
    requires IsOrder(op) && !(h.number(Side(a)).Number? && h.number(Side(e)).Number?)
    ensures Compare(h, a, op, e)
         == if h.number(Side(a)).NoNumber? || (h.number(Side(a)).Number? && h.number(Side(e)).NoNumber?) then Some(false) else None
  {
    OrderNames(op);
    ByName(h, a, op, e, OperatorOf(op).value);
    Comparisons(h, a, e);
    NumbersOf(h, a, e, (x, y) => x > y);
    NumbersOf(h, a, e, (x, y) => x >= y);
    NumbersOf(h, a, e, (x, y) => x < y);
    NumbersOf(h, a, e, (x, y) => x <= y);
  }

  predicate EqualNumbers(h: Host, a: Value, e: Value) {
    h.number(Side(a)).Number? && h.number(Side(a)) == h.number(Side(e))
  }

  /** At least is greater or equal, at most is less or equal. */
  lemma AtLeastExactly(h: Host, a: Value, e: Value)
    ensures Compare(h, a, "gte", e) == Some(true) <==> Compare(h, a, "gt", e) == Some(true) || EqualNumbers(h, a, e)
    ensures Compare(h, a, "lte", e) == Some(true) <==> Compare(h, a, "lt", e) == Some(true) || EqualNumbers(h, a, e)
  {
    AtEnd(h, a, "gte", e);
    AtEnd(h, a, "gt", e);
    AtEnd(h, a, "lte", e);
    AtEnd(h, a, "lt", e);
  }

  /** When a comparison under one of the four names holds. */
  lemma AtEnd(h: Host, a: Value, op: string, e: Value)
    requires op in {"gt", "gte", "lt", "lte"}
    ensures Compare(h, a, op, e) == Some(true) <==>
            && h.number(Side(a)).Number? && h.number(Side(e)).Number?
            && var x, y := h.number(Side(a)).x, h.number(Side(e)).x;
               (op == "gt" && x > y) || (op == "gte" && x >= y) || (op == "lt" && x < y) || (op == "lte" && x <= y)
  {
    if h.number(Side(a)).Number? && h.number(Side(e)).Number? {
      NumbersCompare(h, a, op, e, h.number(Side(a)).x, h.number(Side(e)).x);
    } else {
      NonNumbersCompare(h, a, op, e);
    }
  }

  /** In range: two ends, both numbers, and the value from one to the other, ends included. */
  lemma BetweenExactly(h: Host, a: Value, e: Value)
    ensures Compare(h, a, "between", e) == Some(true) <==>
            && e.List? && |e.vs| == 2
            && h.number(e.vs[0]).Number? && h.number(Side(a)).Number? && h.number(e.vs[1]).Number?
            && h.number(e.vs[0]).x <= h.number(Side(a)).x <= h.number(e.vs[1]).x
  {
    OrderNames("between");
    ByName(h, a, "between", e, InRange);
    FalsyExactly(a);
    BetweenBy(h, a, e);
  }

  lemma BetweenBy(h: Host, a: Value, e: Value)
    ensures CompareBy(h, a, InRange, e) == Some(true) <==>
            && e.List? && |e.vs| == 2
            && h.number(e.vs[0]).Number? && h.number(OrZero(a)).Number? && h.number(e.vs[1]).Number?
            && h.number(e.vs[0]).x <= h.number(OrZero(a)).x <= h.number(e.vs[1]).x
  {
  }

  /** How the host language converts the values that count as nothing. */
  ghost predicate ConvertsFalsy(h: Host) {
    && h.number(Num(0.0)) == Number(0.0) && h.number(Bool(false)) == Number(0.0)
    && h.number(Null) == h.number(Str("")) == h.number(List([])) == h.number(Dict(map[])) == NoNumber
  }

  predicate Missing(v: Value) {
    Falsy(v) && v != Num(0.0) && v != Bool(false)
  }

  lemma EndReads(h: Host, v: Value)
    requires ConvertsFalsy(h)
    ensures if Missing(v) then h.number(v) == NoNumber else h.number(Side(v)) == h.number(v)
  {
  }

  /**
   `between` is "at least the low end and at most the high end", except where an end is missing or
   empty: those two comparisons take such an end for 0, `between` takes it for no number.
   */
  lemma BetweenIsBothExactly(h: Host, a: Value, low: Value, high: Value)
    requires ConvertsFalsy(h)
    ensures Compare(h, a, "between", List([low, high])) == Some(true) <==>
            && Compare(h, a, "gte", low) == Some(true) && Compare(h, a, "lte", high) == Some(true)
            && !Missing(low) && !Missing(high)
  {
    BetweenExactly(h, a, List([low, high]));
    AtEnd(h, a, "gte", low);
    AtEnd(h, a, "lte", high);
    EndReads(h, low);
    EndReads(h, high);
  }

  /** For one: 5 is at least a missing end and at most 10, but not between them. */
  lemma MissingEndIsNoZero(h: Host)
    requires ConvertsFalsy(h) && h.number(Num(5.0)) == Number(5.0) && h.number(Num(10.0)) == Number(10.0)
    ensures Compare(h, Num(5.0), "gte", Null) == Compare(h, Num(5.0), "lte", Num(10.0)) == Some(true)
    ensures Compare(h, Num(5.0), "between", List([Null, Num(10.0)])) != Some(true)
  {
    AtEnd(h, Num(5.0), "gte", Null);
    AtEnd(h, Num(5.0), "lte", Num(10.0));
    BetweenIsBothExactly(h, Num(5.0), Null, Num(10.0));
  }

  // ---------------------------------------------------------------------------
  // Text
  // ---------------------------------------------------------------------------

  ghost predicate Begins(s: string, part: string) {
    exists rest: string :: s == part + rest
  }

  ghost predicate Ends(s: string, part: string) {
    exists front: string :: s == front + part
  }

  ghost predicate Inside(s: string, part: string) {
    exists front: string, rest: string :: s == front + part + rest
  }

  lemma BeginsExactly(s: string, part: string)
    ensures part <= s <==> Begins(s, part)
  {
    if part <= s {
      assert s == part + s[|part|..];
    }
  }

  lemma EndsExactly(s: string, part: string)
    ensures EndsWith(s, part) <==> Ends(s, part)
  {
    if EndsWith(s, part) {
      assert s == s[..|s| - |part|] + part;
    }
    if front: string :| s == front + part {
      assert s[|front|..] == part;
    }
  }

  lemma InsideExactly(s: string, part: string)
    ensures Contains(s, part) <==> Inside(s, part)
  {
    if Contains(s, part) {
      var i :| 0 <= i <= |s| - |part| && Occurs(s, part, i);
      assert s == s[..i] + part + s[i + |part|..];
    }
    if front: string, rest: string :| s == front + part + rest {
      assert Occurs(s, part, |front|);
    }
  }

  lemma TextBy(h: Host, a: Value, e: Value)
    ensures var actual, expected := h.lower(h.text(a)), h.lower(h.text(Normalize(h, e)));
            && CompareBy(h, a, StartsWith, e) == Some(Truthy(a) && expected <= actual)
            && CompareBy(h, a, EndsIn, e) == Some(Truthy(a) && EndsWith(actual, expected))
            && CompareBy(h, a, Includes, e) == Some(Truthy(a) && Contains(actual, expected))
  {
  }

  /** Case does not count and the expected value is normalised: the actual text is it with some text after, before, or around it. */
  lemma PartsExactly(h: Host, a: Value, e: Value)
    ensures var actual, expected := h.lower(h.text(a)), h.lower(h.text(Normalize(h, e)));
            && Compare(h, a, "starts_with", e) == Some(!Falsy(a) && Begins(actual, expected))
            && Compare(h, a, "ends_with", e) == Some(!Falsy(a) && Ends(actual, expected))
            && Compare(h, a, "contains", e) == Some(!Falsy(a) && Inside(actual, expected))
  {
    var actual, expected := h.lower(h.text(a)), h.lower(h.text(Normalize(h, e)));
    FalsyExactly(a);
    BeginsExactly(actual, expected);
    EndsExactly(actual, expected);
    InsideExactly(actual, expected);
    TextNames("starts_with");
    TextNames("ends_with");
    TextNames("contains");
    ByName(h, a, "starts_with", e, StartsWith);
    ByName(h, a, "ends_with", e, EndsIn);
    ByName(h, a, "contains", e, Includes);
    TextBy(h, a, e);
  }

  /** The pattern is searched for in the text of a value that counts as something; a bad pattern raises only then. */
  lemma RegexExactly(h: Host, a: Value, e: Value)
    ensures Compare(h, a, "regex", e) == if Falsy(a) then Some(false) else h.search(h.text(e), h.text(a))
  {
    FalsyExactly(a);
    TextNames("regex");
    ByName(h, a, "regex", e, Regex);
  }

  /** The first eight characters, case aside, of the actual text and the normalised expected one. */
  lemma OuiExactly(h: Host, a: Value, e: Value)
    ensures var s, t := h.text(a), h.text(Normalize(h, e));
            Compare(h, a, "matches_oui", e)
            == Some(!Falsy(a) && !Falsy(Normalize(h, e))
                    && h.lower(if |s| < 8 then s else s[..8]) == h.lower(if |t| < 8 then t else t[..8]))
  {
    FalsyExactly(a);
    FalsyExactly(Normalize(h, e));
    var s, t := h.text(a), h.text(Normalize(h, e));
    assert |s| == 8 ==> s[..8] == s;
    assert |t| == 8 ==> t[..8] == t;
    TextNames("matches_oui");
    ByName(h, a, "matches_oui", e, Oui);
  }

  // ---------------------------------------------------------------------------
  // Presence, lists and equality
  // ---------------------------------------------------------------------------

  lemma PresenceExactly(h: Host, a: Value, e: Value)
    ensures Compare(h, a, "exists", e) == Some(a != Null)
    ensures Compare(h, a, "is_empty", e) == Some(a == Null || a == Str("") || a == List([]))
  {
    OtherNames("exists");
    OtherNames("is_empty");
    ByName(h, a, "exists", e, Exists);
    ByName(h, a, "is_empty", e, IsEmpty);
  }

  /** The host language's equality, spelled out: a truth value is the number 1 or 0, containers are equal entry by entry. */
  lemma SameExactly(a: Value, b: Value)
    ensures !a.List? && !a.Dict? ==>
              (Same(a, b) <==> || a == b
                               || (a.Bool? && b == Num(if a.b then 1.0 else 0.0)) || (b.Bool? && a == Num(if b.b then 1.0 else 0.0)))
    ensures a.List? ==> (Same(a, b) <==> b.List? && |a.vs| == |b.vs| && forall i :: 0 <= i < |a.vs| ==> Same(a.vs[i], b.vs[i]))
    ensures a.Dict? ==> (Same(a, b) <==> b.Dict? && a.m.Keys == b.m.Keys && forall k :: k in a.m ==> Same(a.m[k], b.m[k]))
  {
  }

  /** Some entry of a list, normalised, equals a value. */
  predicate Listed(h: Host, v: Value, vs: seq<Value>) {
    exists x :: x in vs && Same(v, Normalize(h, x))
  }

  lemma ListedExactly(h: Host, v: Value, vs: seq<Value>)
    ensures Member(v, NormalizeAll(h, vs)) <==> Listed(h, v, vs)
  {
    if x :| x in vs && Same(v, Normalize(h, x)) {
      var i :| 0 <= i < |vs| && vs[i] == x;
      assert Same(v, NormalizeAll(h, vs)[i]);
    }
    if Member(v, NormalizeAll(h, vs)) {
      var i :| 0 <= i < |vs| && Same(v, NormalizeAll(h, vs)[i]);
      assert vs[i] in vs;
    }
  }

  /** In a list: equal to an entry. In anything else: not nothing, and part of its text. */
  lemma InExactly(h: Host, a: Value, e: Value)
    ensures e.List? ==> Compare(h, a, "in", e) == Some(Listed(h, Normalize(h, a), e.vs))
    ensures !e.List? ==>
              Compare(h, a, "in", e)
              == Some(!Falsy(Normalize(h, a)) && Inside(h.text(Normalize(h, e)), h.text(Normalize(h, a))))
  {
    FalsyExactly(Normalize(h, a));
    InsideExactly(h.text(Normalize(h, e)), h.text(Normalize(h, a)));
    if e.List? {
      ListedExactly(h, Normalize(h, a), e.vs);
    }
    TextNames("in");
    ByName(h, a, "in", e, In);
  }

  predicate SharesEntry(h: Host, vs: seq<Value>, ws: seq<Value>) {
    exists v :: v in vs && Listed(h, Normalize(h, v), ws)
  }

  lemma OverlapExactly(h: Host, es: seq<Value>, acts: seq<Value>)
    ensures Overlap(NormalizeAll(h, es), NormalizeAll(h, acts)) <==>
            && (forall v :: v in es || v in acts ==> !v.List? && !v.Dict?)
            && SharesEntry(h, acts, es)
  {
    HashableExactly(h, es);
    HashableExactly(h, acts);
    var ns := NormalizeAll(h, acts);
    if v :| v in acts && Listed(h, Normalize(h, v), es) {
      var i :| 0 <= i < |acts| && acts[i] == v;
      ListedExactly(h, ns[i], es);
      assert Member(ns[i], NormalizeAll(h, es));
    }
    if i :| 0 <= i < |ns| && Member(ns[i], NormalizeAll(h, es)) {
      ListedExactly(h, ns[i], es);
      assert acts[i] in acts;
    }
  }

  lemma HashableExactly(h: Host, vs: seq<Value>)
    ensures (forall i :: 0 <= i < |NormalizeAll(h, vs)| ==> Hashable(NormalizeAll(h, vs)[i])) <==>
            forall v :: v in vs ==> !v.List? && !v.Dict?
  {
    var ns := NormalizeAll(h, vs);
    if forall i :: 0 <= i < |ns| ==> Hashable(ns[i]) {
      forall v | v in vs ensures !v.List? && !v.Dict? {
        var i :| 0 <= i < |vs| && vs[i] == v;
        assert Hashable(ns[i]);
      }
    }
  }

  /** Of a list of groups: one of them is the expected one, or is among the expected ones if that is a list of plain values. */
  lemma MemberOfExactly(h: Host, a: Value, e: Value)
    ensures !a.List? ==> Compare(h, a, "is_member_of", e) == Some(false)
    ensures a.List? && !e.List? ==> Compare(h, a, "is_member_of", e) == Some(Listed(h, Normalize(h, e), a.vs))
    ensures a.List? && e.List? ==>
              Compare(h, a, "is_member_of", e)
              == Some((forall v :: v in e.vs || v in a.vs ==> !v.List? && !v.Dict?) && SharesEntry(h, a.vs, e.vs))
  {
    if a.List? && !e.List? {
      ListedExactly(h, Normalize(h, e), a.vs);
    }
    if a.List? && e.List? {
      OverlapExactly(h, e.vs, a.vs);
    }
    OtherNames("is_member_of");
    ByName(h, a, "is_member_of", e, MemberOf);
  }

  /** Equal, under each of its names: both missing, the same text case aside, the same truth, or the same value. */
  lemma EqualsExactly(h: Host, a: Value, op: string, e: Value)
    requires op in {"equals", "eq", "=="}
    ensures var n, m := Normalize(h, a), Normalize(h, e);
            && (a == Null || e == Null ==> Compare(h, a, op, e) == Some(a == Null && e == Null))
            && (n.Str? && m.Str? ==> Compare(h, a, op, e) == Some(h.lower(n.s) == h.lower(m.s)))
            && (a != Null && e != Null && (n.Bool? || m.Bool?) ==> Compare(h, a, op, e) == Some(Falsy(n) == Falsy(m)))
            && (a != Null && e != Null && !n.Bool? && !m.Bool? && !(n.Str? && m.Str?) ==> Compare(h, a, op, e) == Some(Same(n, m)))
  {
    FalsyExactly(Normalize(h, a));
    FalsyExactly(Normalize(h, e));
    OtherNames(op);
    ByName(h, a, op, e, IsEqual);
  }

  // ---------------------------------------------------------------------------
  // Fields
  // ---------------------------------------------------------------------------

  /** The context keys of the dotted fields that the engine documents. */
  function DocumentedKey(field: string): Option<string> {
    match field
    case "device.type" => Some("device_type")
    case "auth.method" => Some("auth_method")
    case "user.group" => Some("ad_groups")
    case "user.department" => Some("ad_department")
    case "network.vlan" => Some("current_vlan")
    case "network.switch_ip" => Some("nas_ip")
    case "network.port" => Some("nas_port_id")
    case "device.risk_score" => Some("risk_score")
    case _ => None
  }

  lemma NoDirectFieldIsDotted(field: string)
    requires '.' in field
    ensures field !in DIRECT
  {
  }

  lemma DocumentedFieldsAreAliases(field: string)
    requires DocumentedKey(field).Some?
    ensures field in ALIASES && ALIASES[field] == DocumentedKey(field).value
  {
  }

  lemma DocumentedFieldsAreDotted(field: string)
    requires DocumentedKey(field).Some?
    ensures '.' in field
  {
    assert field[4] == '.' || field[6] == '.' || field[7] == '.';
  }

  lemma AliasesResolve(field: string, c: Context, clock: string -> Value)
    requires field != "" && field !in DIRECT && field in ALIASES
    ensures Resolve(field, c, clock) == if ALIASES[field] in c then c[ALIASES[field]] else Null
  {
  }

  /** They find what the context holds under that key or nothing, whatever else the context holds. */
  lemma DocumentedFieldsResolve(field: string, c: Context, clock: string -> Value)
    requires DocumentedKey(field).Some?
    ensures var key := DocumentedKey(field).value;
            Resolve(field, c, clock) == if key in c then c[key] else Null
  {
    DocumentedFieldsAreAliases(field);
    DocumentedFieldsAreDotted(field);
    NoDirectFieldIsDotted(field);
    AliasesResolve(field, c, clock);
  }

  /** A field that is no known name: its key with underscores, then the clock, then the nested properties. */
  lemma OtherFieldsResolve(field: string, c: Context, clock: string -> Value)
    requires field != "" && field !in DIRECT && field !in ALIASES
    ensures var key := Underscored(field);
            && |key| == |field| && (forall i :: 0 <= i < |field| ==> key[i] == if field[i] == '.' then '_' else field[i])
            && (key in c ==> Resolve(field, c, clock) == c[key])
            && (key !in c && |field| >= 5 && field[..5] == "time." ==> Resolve(field, c, clock) == clock(field))
            && (key !in c && !(|field| >= 5 && field[..5] == "time.") && "properties" !in c ==> Resolve(field, c, clock) == Null)
  {
    assert |field| >= 5 ==> (field[..5] == "time." <==> "time." <= field);
    assert Parts(field) != [];
  }

  // ---------------------------------------------------------------------------
  // Details
  // ---------------------------------------------------------------------------

  /** A detail shows a condition as it stands in the policy, the value found for its field, and whether it holds. */
  predicate Describes(s: Setting, d: Detail, c: Entry) {
    && c.Condition? && d.field == c.field && d.op == c.op && d.expected == c.value && d.actual == s.resolve(c.field)
    && s.compare(d.actual, c.op, c.value) == Some(d.matched)
  }

  /** The conditions among the first `n` entries. */
  function ConditionsIn(cs: seq<Entry>, n: nat): seq<Entry>
    requires n <= |cs|
  {
    if n == 0 then [] else ConditionsIn(cs, n - 1) + if cs[n - 1].Condition? then [cs[n - 1]] else []
  }

  /** When nothing raises there is one detail for every condition, in order, and it describes that condition. */
  lemma {:induction false} DetailsExactly(s: Setting, cs: seq<Entry>, n: nat)
    requires n <= |cs| && !Raises(s, cs)
    ensures var details, conditions := Details(s, cs, n), ConditionsIn(cs, n);
            |details| == |conditions| && forall k :: 0 <= k < |details| ==> Describes(s, details[k], conditions[k])
    decreases n
  {
    if n > 0 {
      DetailsExactly(s, cs, n - 1);
      assert PolicyEvaluator.Holds(s, cs[n - 1]).Some?;
    }
  }

  // ---------------------------------------------------------------------------
  // A shipped policy
  // ---------------------------------------------------------------------------

  /** The template for high risk, on a device whose score is known: it matches from 70 up. */
  lemma HighRiskFromSeventy(h: Host, c: Context, clock: string -> Value, score: real)
    requires forall x :: h.number(Num(x)) == Number(x)
    requires "risk_score" in c && c["risk_score"] == Num(score)
    ensures Verdict(SettingOf(h, c, clock), [Condition("device.risk_score", "gte", Num(70.0))]) == Some(score >= 70.0)
  {
    RiskScoreResolves(c, clock);
    NumbersCompare(h, Num(score), "gte", Num(70.0), score, 70.0);
    VerdictOfOne(SettingOf(h, c, clock), Condition("device.risk_score", "gte", Num(70.0)));
  }

  lemma RiskScoreResolves(c: Context, clock: string -> Value)
    ensures Resolve("device.risk_score", c, clock) == if "risk_score" in c then c["risk_score"] else Null
  {
    DocumentedFieldsResolve("device.risk_score", c, clock);
  }

  lemma VerdictOfOne(s: Setting, entry: Entry)
    ensures Verdict(s, [entry]) == PolicyEvaluator.Holds(s, entry)
  {
    assert [entry][1..] == [];
  }
}
