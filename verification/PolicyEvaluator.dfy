/**
 The policy evaluator, of which the gateway and the policy engine each have a copy: conditions on a
 context, all of which must hold. Text and number conversions of the host language and the regular
 expressions are parameters; a bad pattern and a number too large to convert raise out of a comparison.
 */
module PolicyEvaluator {
  import opened Wrappers
  import opened Substring

  datatype Value = Null | Bool(b: bool) | Num(x: real) | Str(s: string) | List(vs: seq<Value>) | Dict(m: map<string, Value>)

  /** Converting to a number: what is no number makes a comparison false, one that overflows raises out of it. */
  datatype Reading = Number(x: real) | NoNumber | Overflow

  datatype Host = Host(
    lower: string -> string, strip: string -> string, text: Value -> string,
    number: Value -> Reading, search: (string, string) -> Option<bool>)

  function Truthy(v: Value): bool {
    match v
    case Null => false
    case Bool(b) => b
    case Num(x) => x != 0.0
    case Str(s) => s != ""
    case List(vs) => vs != []
    case Dict(m) => m != map[]
  }

  function AsNum(v: Value): Value {
    if v.Bool? then Num(if v.b then 1.0 else 0.0) else v
  }

  /** Equality of the host language, where a boolean is a number. */
  predicate Same(a: Value, b: Value)
    decreases a
  {
    match a
    case List(vs) => b.List? && |b.vs| == |vs| && forall i :: 0 <= i < |vs| ==> Same(vs[i], b.vs[i])
    case Dict(m) => b.Dict? && b.m.Keys == m.Keys && forall k :: k in m ==> Same(m[k], b.m[k])
    case _ => AsNum(a) == AsNum(b)
  }

  function Normalize(h: Host, v: Value): Value {
    if v.Str? then
      var t := h.strip(h.lower(v.s));
      if t in {"true", "yes", "1"} then Bool(true)
      else if t in {"false", "no", "0"} then Bool(false)
      else Str(t)
    else v
  }

  function NormalizeAll(h: Host, vs: seq<Value>): seq<Value> {
    seq(|vs|, i requires 0 <= i < |vs| => Normalize(h, vs[i]))
  }

  predicate Equals(h: Host, a: Value, b: Value) {
    if a.Null? || b.Null? then a.Null? && b.Null?
    else if a.Str? && b.Str? then h.lower(a.s) == h.lower(b.s)
    else if a.Bool? || b.Bool? then Truthy(a) == Truthy(b)
    else Same(a, b)
  }

  predicate Member(v: Value, vs: seq<Value>) {
    exists i :: 0 <= i < |vs| && Same(v, vs[i])
  }

  predicate Hashable(v: Value) {
    !v.List? && !v.Dict?
  }

  /** Some value in both lists; a list or dict among them cannot be hashed, and that counts as no. */
  predicate Overlap(es: seq<Value>, acts: seq<Value>) {
    && (forall i :: 0 <= i < |es| ==> Hashable(es[i]))
    && (forall i :: 0 <= i < |acts| ==> Hashable(acts[i]))
    && exists i :: 0 <= i < |acts| && Member(acts[i], es)
  }

  predicate EndsWith(s: string, suffix: string) {
    |suffix| <= |s| && s[|s| - |suffix|..] == suffix
  }

  function Take8(s: string): string {
    if |s| <= 8 then s else s[..8]
  }

  function OrZero(v: Value): Value {
    if Truthy(v) then v else Num(0.0)
  }

  /** A comparison of two conversions, the left one first. */
  function Ordered(left: Reading, right: () -> Reading, holds: (real, real) -> bool): Option<bool> {
    match left
    case Overflow => None
    case NoNumber => Some(false)
    case Number(x) =>
      match right()
      case Overflow => None
      case NoNumber => Some(false)
      case Number(y) => Some(holds(x, y))
  }

  function CompareNumbers(h: Host, a: Value, e: Value, holds: (real, real) -> bool): Option<bool> {
    Ordered(h.number(OrZero(a)), () => h.number(OrZero(e)), holds)
  }

  /** The upper end is converted only if the lower one holds. */
  function Between(h: Host, a: Value, e: Value): Option<bool> {
    if !(e.List? && |e.vs| == 2) then Some(false) else
    var low := Ordered(h.number(e.vs[0]), () => h.number(OrZero(a)), (x, y) => x <= y);
    if low == Some(true) then Ordered(h.number(OrZero(a)), () => h.number(e.vs[1]), (x, y) => x <= y) else low
  }

  predicate IsIn(h: Host, a: Value, e: Value) {
    var actual, expected := Normalize(h, a), Normalize(h, e);
    if e.List? then Member(actual, NormalizeAll(h, e.vs))
    else Truthy(actual) && Contains(h.text(expected), h.text(actual))
  }

  predicate HasPart(h: Host, a: Value, e: Value) {
    Truthy(a) && Contains(h.lower(h.text(a)), h.lower(h.text(Normalize(h, e))))
  }

  predicate IsBlank(a: Value) {
    a.Null? || a == Str("") || a == List([])
  }

  predicate IsMemberOf(h: Host, a: Value, e: Value) {
    a.List?
    && if e.List? then Overlap(NormalizeAll(h, e.vs), NormalizeAll(h, a.vs))
       else Member(Normalize(h, e), NormalizeAll(h, a.vs))
  }

  predicate MatchesOui(h: Host, a: Value, e: Value) {
    var expected := Normalize(h, e);
    Truthy(a) && Truthy(expected) && h.lower(Take8(h.text(a))) == h.lower(Take8(h.text(expected)))
  }

  datatype Operator =
    | IsEqual | NotEqual | In | NotIn | Includes | NotIncludes | StartsWith | EndsIn | Gt | Gte | Lt | Lte
    | InRange | Regex | Exists | NotExists | IsEmpty | IsNotEmpty | MemberOf | Oui

  function OperatorOf(name: string): Option<Operator> {
    match name
    case "equals" => Some(IsEqual)
    case "eq" => Some(IsEqual)
    case "==" => Some(IsEqual)
    case "not_equals" => Some(NotEqual)
    case "ne" => Some(NotEqual)
    case "!=" => Some(NotEqual)
    case "in" => Some(In)
    case "not_in" => Some(NotIn)
    case "contains" => Some(Includes)
    case "not_contains" => Some(NotIncludes)
    case "starts_with" => Some(StartsWith)
    case "ends_with" => Some(EndsIn)
    case "gt" => Some(Gt)
    case ">" => Some(Gt)
    case "gte" => Some(Gte)
    case ">=" => Some(Gte)
    case "lt" => Some(Lt)
    case "<" => Some(Lt)
    case "lte" => Some(Lte)
    case "<=" => Some(Lte)
    case "between" => Some(InRange)
    case "regex" => Some(Regex)
    case "exists" => Some(Exists)
    case "not_exists" => Some(NotExists)
    case "is_empty" => Some(IsEmpty)
    case "is_not_empty" => Some(IsNotEmpty)
    case "is_member_of" => Some(MemberOf)
    case "matches_oui" => Some(Oui)
    case _ => None
  }

  /** One comparison; `None` when it raises: a bad pattern, or a number that overflows. */
  function CompareBy(h: Host, a: Value, op: Operator, e: Value): Option<bool> {
    var actual, expected := Normalize(h, a), Normalize(h, e);
    match op
    case IsEqual => Some(Equals(h, actual, expected))
    case NotEqual => Some(!Equals(h, actual, expected))
    case In => Some(IsIn(h, a, e))
    case NotIn =>
      Some(if e.List? then !Member(actual, NormalizeAll(h, e.vs))
           else !Truthy(actual) || !Contains(h.text(expected), h.text(actual)))
    case Includes => Some(HasPart(h, a, e))
    case NotIncludes => Some(!Truthy(a) || !Contains(h.lower(h.text(a)), h.lower(h.text(expected))))
    case StartsWith => Some(Truthy(a) && h.lower(h.text(expected)) <= h.lower(h.text(a)))
    case EndsIn => Some(Truthy(a) && EndsWith(h.lower(h.text(a)), h.lower(h.text(expected))))
    case Gt => CompareNumbers(h, a, e, (x, y) => x > y)
    case Gte => CompareNumbers(h, a, e, (x, y) => x >= y)
    case Lt => CompareNumbers(h, a, e, (x, y) => x < y)
    case Lte => CompareNumbers(h, a, e, (x, y) => x <= y)
    case InRange => Between(h, a, e)
    case Regex => if Truthy(a) then h.search(h.text(e), h.text(a)) else Some(false)
    case Exists => Some(!a.Null?)
    case NotExists => Some(a.Null?)
    case IsEmpty => Some(IsBlank(a))
    case IsNotEmpty => Some(!a.Null? && a != Str("") && a != List([]))
    case MemberOf => Some(IsMemberOf(h, a, e))
    case Oui => Some(MatchesOui(h, a, e))
  }

  /** An operator that is not known holds of nothing. */
  function Compare(h: Host, a: Value, op: string, e: Value): Option<bool> {
    match OperatorOf(op)
    case None => Some(false)
    case Some(o) => CompareBy(h, a, o, e)
  }

  // ---------------------------------------------------------------------------
  // Fields
  // ---------------------------------------------------------------------------

  type Context = map<string, Value>

  const DIRECT := {
    "mac_address", "ip_address", "hostname", "device_type", "os_family", "os_version", "vendor", "model", "status",
    "risk_score", "first_seen", "last_seen"}

  const ALIASES := map[
    "device.type" := "device_type", "device.os" := "os_family", "device.os_version" := "os_version",
    "device.vendor" := "vendor", "device.mac" := "mac_address", "device.ip" := "ip_address",
    "device.hostname" := "hostname", "device.status" := "status", "device.risk_score" := "risk_score",
    "auth.method" := "auth_method", "auth.username" := "username", "auth.802_1x" := "is_dot1x", "auth.mab" := "is_mab",
    "network.nas_ip" := "nas_ip", "network.nas_port" := "nas_port", "network.switch_ip" := "nas_ip",
    "network.port" := "nas_port_id", "network.vlan" := "current_vlan", "network.ssid" := "ssid",
    "user.name" := "username", "user.domain" := "user_domain", "user.group" := "ad_groups",
    "user.department" := "ad_department", "user.email" := "user_email"]

  function Get(c: Context, key: string): Value {
    if key in c then c[key] else Null
  }

  function Underscored(field: string): string {
    seq(|field|, i requires 0 <= i < |field| => if field[i] == '.' then '_' else field[i])
  }

  function Parts(field: string): (parts: seq<string>)
    ensures |parts| >= 1
  {
    if field == "" then [""]
    else
      var rest := Parts(field[1..]);
      if field[0] == '.' then [""] + rest else [[field[0]] + rest[0]] + rest[1..]
  }

  /** Follow a path into nested dicts. */
  function Walk(current: Value, parts: seq<string>): Value {
    if parts == [] then current
    else if current.Dict? && parts[0] in current.m then Walk(current.m[parts[0]], parts[1..])
    else Null
  }

  /** `clock` answers the fields that begin with `time.`. */
  function Resolve(field: string, c: Context, clock: string -> Value): Value {
    if field == "" then Null
    else if field in DIRECT then Get(c, field)
    else if field in ALIASES then Get(c, ALIASES[field])
    else if Underscored(field) in c then c[Underscored(field)]
    else if "time." <= field then clock(field)
    else Walk(if "properties" in c then c["properties"] else Dict(map[]), Parts(field))
  }

  method FollowPath(root: Value, parts: seq<string>) returns (v: Value)
    ensures v == Walk(root, parts)
  {
    v := root;
    for i := 0 to |parts|
      invariant Walk(v, parts[i..]) == Walk(root, parts)
    {
      assert parts[i..][1..] == parts[i + 1..];
      if v.Dict? && parts[i] in v.m {
        v := v.m[parts[i]];
      } else {
        return Null;
      }
    }
  }

  // ---------------------------------------------------------------------------
  // Policies
  // ---------------------------------------------------------------------------

  /** An entry of a policy's list; anything but a dict is passed over. */
  datatype Entry = Condition(field: string, op: string, value: Value) | Other

  datatype Detail = Detail(field: string, op: string, expected: Value, actual: Value, matched: bool)

  /** How a field is resolved and a comparison decided. */
  datatype Setting = Setting(resolve: string -> Value, compare: (Value, string, Value) -> Option<bool>)

  function SettingOf(h: Host, c: Context, clock: string -> Value): Setting {
    Setting((field: string) => Resolve(field, c, clock), (a: Value, op: string, e: Value) => Compare(h, a, op, e))
  }

  /** Whether an entry holds; one that is passed over does. */
  function Holds(s: Setting, c: Entry): Option<bool> {
    if c.Condition? then s.compare(s.resolve(c.field), c.op, c.value) else Some(true)
  }

  /** Evaluation with an early exit: what comes after the first entry that fails is not compared. */
  function Verdict(s: Setting, cs: seq<Entry>): Option<bool> {
    if cs == [] then Some(true)
    else match Holds(s, cs[0])
      case None => None
      case Some(false) => Some(false)
      case Some(true) => Verdict(s, cs[1..])
  }

  method Evaluate(s: Setting, cs: seq<Entry>) returns (r: Option<bool>)
    ensures r == Verdict(s, cs)
  {
    if cs == [] {
      return Some(true);
    }
    for i := 0 to |cs|
      invariant Verdict(s, cs) == Verdict(s, cs[i..])
    {
      assert cs[i..][1..] == cs[i + 1..];
      if cs[i].Condition? {
        var holds := s.compare(s.resolve(cs[i].field), cs[i].op, cs[i].value);
        if holds != Some(true) {
          return holds;
        }
      }
    }
    return Some(true);
  }

  /** The full evaluation: the flag and one detail for every condition. */
  method EvaluateWithDetails(s: Setting, cs: seq<Entry>) returns (r: Option<(bool, seq<Detail>)>)
    ensures FullVerdict(s, cs) == if r.Some? then Some(r.value.0) else None
    ensures r.Some? ==> r.value.1 == Details(s, cs, |cs|)
  {
    var all, details := true, [];
    for i := 0 to |cs|
      invariant forall k :: 0 <= k < i ==> Holds(s, cs[k]).Some?
      invariant all <==> forall k :: 0 <= k < i ==> Holds(s, cs[k]) == Some(true)
      invariant details == Details(s, cs, i)
    {
      if cs[i].Condition? {
        var actual := s.resolve(cs[i].field);
        var matched := s.compare(actual, cs[i].op, cs[i].value);
        if matched.None? {
          assert Holds(s, cs[i]).None?;
          return None;
        }
        if !matched.value {
          all := false;
        }
        details := details + [Detail(cs[i].field, cs[i].op, cs[i].value, actual, matched.value)];
      }
    }
    return Some((all, details));
  }

  /** The details of the first `n` entries. */
  function Details(s: Setting, cs: seq<Entry>, n: nat): seq<Detail>
    requires n <= |cs|
  {
    if n == 0 then []
    else if cs[n - 1].Condition? && Holds(s, cs[n - 1]).Some? then
      var c := cs[n - 1];
      Details(s, cs, n - 1) + [Detail(c.field, c.op, c.value, s.resolve(c.field), Holds(s, c).value)]
    else Details(s, cs, n - 1)
  }

  // ---------------------------------------------------------------------------
  // The two evaluations agree
  // ---------------------------------------------------------------------------

  predicate Raises(s: Setting, cs: seq<Entry>) {
    exists i :: 0 <= i < |cs| && Holds(s, cs[i]).None?
  }

  predicate AllHold(s: Setting, cs: seq<Entry>) {
    forall i :: 0 <= i < |cs| ==> Holds(s, cs[i]) == Some(true)
  }

  /** Some entry fails before any raises: the case that an early exit does not see to the end. */
  predicate FailsFirst(s: Setting, cs: seq<Entry>) {
    exists i :: 0 <= i < |cs| && Holds(s, cs[i]) == Some(false) && forall k :: 0 <= k < i ==> Holds(s, cs[k]).Some?
  }

  /** The early exit answers as the conjunction of all entries, unless a bad pattern comes before any failure. */
  lemma {:induction false} VerdictIsConjunction(s: Setting, cs: seq<Entry>)
    ensures Verdict(s, cs)
         == if AllHold(s, cs) then Some(true) else if FailsFirst(s, cs) then Some(false) else None
    ensures !AllHold(s, cs) && !FailsFirst(s, cs) ==> Raises(s, cs)
    decreases |cs|
  {
    if cs != [] {
      var rest := cs[1..];
      VerdictIsConjunction(s, rest);
      assert forall i :: 0 <= i < |rest| ==> rest[i] == cs[i + 1];
      if FailsFirst(s, rest) && Holds(s, cs[0]).Some? {
        var i :| 0 <= i < |rest| && Holds(s, rest[i]) == Some(false) && forall k :: 0 <= k < i ==> Holds(s, rest[k]).Some?;
        assert Holds(s, cs[i + 1]) == Some(false) && forall k :: 0 <= k < i + 1 ==> Holds(s, cs[k]).Some?;
      }
      if FailsFirst(s, cs) && Holds(s, cs[0]) == Some(true) {
        var i :| 0 <= i < |cs| && Holds(s, cs[i]) == Some(false) && forall k :: 0 <= k < i ==> Holds(s, cs[k]).Some?;
        assert Holds(s, rest[i - 1]) == Some(false);
      }
    }
  }

  /** What the full evaluation answers: it raises if any entry does, and its flag is the conjunction. */
  function FullVerdict(s: Setting, cs: seq<Entry>): Option<bool> {
    if Raises(s, cs) then None else Some(AllHold(s, cs))
  }

  /** The two evaluations agree exactly when nothing raises, or something raises before anything fails. */
  lemma AgreeExactly(s: Setting, cs: seq<Entry>)
    ensures Verdict(s, cs) == FullVerdict(s, cs) <==> !(Raises(s, cs) && FailsFirst(s, cs))
  {
    VerdictIsConjunction(s, cs);
  }

  /** The order of the conditions does not matter when none raises. */
  lemma OrderIsImmaterial(s: Setting, cs: seq<Entry>, ds: seq<Entry>)
    requires multiset(cs) == multiset(ds) && !Raises(s, cs)
    ensures Verdict(s, cs) == Verdict(s, ds)
  {
    forall c ensures c in cs <==> c in ds {
      assert c in cs <==> c in multiset(cs);
      assert c in ds <==> c in multiset(ds);
    }
    assert AllHold(s, cs) <==> AllHold(s, ds) by {
      assert AllHold(s, cs) <==> forall c :: c in cs ==> Holds(s, c) == Some(true);
      assert AllHold(s, ds) <==> forall c :: c in ds ==> Holds(s, c) == Some(true);
    }
    forall i | 0 <= i < |ds| ensures Holds(s, ds[i]).Some? {
      assert ds[i] in cs;
      var k :| 0 <= k < |cs| && cs[k] == ds[i];
    }
    VerdictIsConjunction(s, cs);
    VerdictIsConjunction(s, ds);
  }

  /** Conditions in sequence: the second list is evaluated only if the first holds. */
  lemma {:induction false} VerdictOfConcat(s: Setting, cs: seq<Entry>, ds: seq<Entry>)
    ensures Verdict(s, cs + ds) == if Verdict(s, cs) == Some(true) then Verdict(s, ds) else Verdict(s, cs)
    decreases |cs|
  {
    if cs == [] {
      assert cs + ds == ds;
    } else {
      assert (cs + ds)[1..] == cs[1..] + ds;
      VerdictOfConcat(s, cs[1..], ds);
    }
  }

  // ---------------------------------------------------------------------------
  // Operators
  // ---------------------------------------------------------------------------

  /** The negated operators and what they negate. */
  function Negated(op: Operator): Option<Operator> {
    match op
    case NotEqual => Some(IsEqual)
    case NotIn => Some(In)
    case NotIncludes => Some(Includes)
    case NotExists => Some(Exists)
    case IsNotEmpty => Some(IsEmpty)
    case _ => None
  }

  /** Each negated operator is the exact complement of its positive form, on all values. */
  lemma NegationsAreComplements(h: Host, a: Value, op: Operator, e: Value)
    requires Negated(op).Some?
    ensures var no, yes := CompareBy(h, a, op, e), CompareBy(h, a, Negated(op).value, e);
            no.Some? && yes.Some? && no.value == !yes.value
  {
  }

  /** By name, aliases included: on all values the first of each pair is the complement of the second. */
  predicate NegatedName(no: string, yes: string) {
    || (no in {"not_equals", "ne", "!="} && yes in {"equals", "eq", "=="})
    || (no == "not_in" && yes == "in") || (no == "not_contains" && yes == "contains")
    || (no == "not_exists" && yes == "exists") || (no == "is_not_empty" && yes == "is_empty")
  }

  lemma NamedOperators(no: string, yes: string)
    requires NegatedName(no, yes)
    ensures OperatorOf(no).Some? && Negated(OperatorOf(no).value) == OperatorOf(yes) && OperatorOf(yes).Some?
  {
  }

  lemma NegatedNamesAreComplements(h: Host, a: Value, no: string, yes: string, e: Value)
    requires NegatedName(no, yes)
    ensures Compare(h, a, yes, e).Some? && Compare(h, a, no, e) == Some(!Compare(h, a, yes, e).value)
  {
    NamedOperators(no, yes);
    NegationsAreComplements(h, a, OperatorOf(no).value, e);
  }

  /** Greater and not greater are complements exactly when both sides are numbers; otherwise both are false or both raise. */
  lemma OrderComplementExactly(h: Host, a: Value, e: Value)
    ensures var gt, lte := CompareBy(h, a, Gt, e), CompareBy(h, a, Lte, e);
            && (gt.Some? && lte.Some? && gt.value == !lte.value <==> h.number(OrZero(a)).Number? && h.number(OrZero(e)).Number?)
            && (gt.None? <==> lte.None?)
  {
  }

  /** Which comparisons raise: a bad pattern on a value that is searched, and a conversion that is reached and overflows. */
  lemma RaisesExactly(h: Host, a: Value, op: Operator, e: Value)
    ensures CompareBy(h, a, op, e).None? <==>
      || (op == Regex && Truthy(a) && h.search(h.text(e), h.text(a)).None?)
      || (op in {Gt, Gte, Lt, Lte} && Overflows(h.number(OrZero(a)), h.number(OrZero(e))))
      || (op == InRange && e.List? && |e.vs| == 2 && RangeOverflows(h.number(e.vs[0]), h.number(OrZero(a)), h.number(e.vs[1])))
  {
  }

  predicate Overflows(left: Reading, right: Reading) {
    left.Overflow? || (left.Number? && right.Overflow?)
  }

  predicate RangeOverflows(low: Reading, x: Reading, high: Reading) {
    Overflows(low, x) || (low.Number? && x.Number? && low.x <= x.x && high.Overflow?)
  }

  lemma {:induction false} SameIsSymmetric(a: Value, b: Value)
    ensures Same(a, b) <==> Same(b, a)
    decreases a
  {
    match a
    case List(vs) =>
      if b.List? && |b.vs| == |vs| {
        forall i | 0 <= i < |vs| ensures Same(vs[i], b.vs[i]) <==> Same(b.vs[i], vs[i]) {
          SameIsSymmetric(vs[i], b.vs[i]);
        }
      }
    case Dict(m) =>
      if b.Dict? && b.m.Keys == m.Keys {
        forall k | k in m ensures Same(m[k], b.m[k]) <==> Same(b.m[k], m[k]) {
          SameIsSymmetric(m[k], b.m[k]);
        }
      }
    case _ =>
  }

  /** `equals` reads the same from both sides. */
  lemma EqualsIsSymmetric(h: Host, a: Value, e: Value)
    ensures CompareBy(h, a, IsEqual, e) == CompareBy(h, e, IsEqual, a)
  {
    SameIsSymmetric(Normalize(h, a), Normalize(h, e));
  }

  /** Compared with true, any value that is not empty or zero is equal: the two sides become booleans. */
  lemma EqualsTrueExactly(h: Host, a: Value)
    ensures CompareBy(h, a, IsEqual, Bool(true)) == Some(Truthy(Normalize(h, a)))
  {
  }

  /** So the text "1" equals every number but zero, and two numbers that equal it need not be equal. */
  lemma OneEqualsAnyNumber(h: Host, x: real)
    requires h.strip(h.lower("1")) == "1"
    ensures CompareBy(h, Str("1"), IsEqual, Num(x)) == Some(x != 0.0)
    ensures CompareBy(h, Num(2.0), IsEqual, Str("1")) == Some(true) && CompareBy(h, Str("1"), IsEqual, Num(3.0)) == Some(true)
    ensures CompareBy(h, Num(2.0), IsEqual, Num(3.0)) == Some(false)
  {
  }

  lemma {:induction false} SameIsTransitive(a: Value, b: Value, c: Value)
    requires Same(a, b) && Same(b, c)
    ensures Same(a, c)
    decreases a
  {
    match a
    case List(vs) =>
      forall i | 0 <= i < |vs| ensures Same(vs[i], c.vs[i]) {
        SameIsTransitive(vs[i], b.vs[i], c.vs[i]);
      }
    case Dict(m) =>
      forall k | k in m ensures Same(m[k], c.m[k]) {
        SameIsTransitive(m[k], b.m[k], c.m[k]);
      }
    case _ =>
  }

  lemma SameTruth(a: Value, b: Value)
    requires Same(a, b)
    ensures Truthy(a) == Truthy(b)
  {
    if a.Dict? {
      assert a.m == map[] <==> a.m.Keys == {};
      assert b.m == map[] <==> b.m.Keys == {};
    }
  }

  predicate AreEqual(h: Host, a: Value, b: Value) {
    CompareBy(h, a, IsEqual, b) == Some(true)
  }

  /** Lower case is empty only for the empty text. */
  ghost predicate KeepsText(h: Host) {
    forall s :: h.lower(s) == "" <==> s == ""
  }

  lemma EqualThrough(h: Host, a: Value, b: Value, c: Value)
    requires KeepsText(h) && Equals(h, a, b) && Equals(h, b, c) && !b.Bool?
    ensures Equals(h, a, c)
  {
    if !b.Null? && !b.Str? {
      if !a.Bool? { SameTruth(a, b); }
      if !c.Bool? { SameTruth(b, c); }
      if !a.Bool? && !c.Bool? { SameIsTransitive(a, b, c); }
    } else if b.Str? {
      assert a.Str? ==> (a.s == "" <==> h.lower(a.s) == "");
      assert c.Str? ==> (c.s == "" <==> h.lower(c.s) == "");
      assert b.s == "" <==> h.lower(b.s) == "";
    }
  }

  ghost predicate EqualsPassesThrough(h: Host, b: Value) {
    forall a, c :: AreEqual(h, a, b) && AreEqual(h, b, c) ==> AreEqual(h, a, c)
  }

  /** `equals` is transitive through exactly those values that do not normalise to a boolean. */
  lemma TransitiveExactly(h: Host, b: Value)
    requires KeepsText(h)
    ensures EqualsPassesThrough(h, b) <==> !Normalize(h, b).Bool?
  {
    if Normalize(h, b).Bool? {
      var a, c := if Normalize(h, b).b then Num(2.0) else Num(0.0), if Normalize(h, b).b then Num(3.0) else List([]);
      assert AreEqual(h, a, b) && AreEqual(h, b, c) && !AreEqual(h, a, c);
    } else {
      forall a, c | AreEqual(h, a, b) && AreEqual(h, b, c) ensures AreEqual(h, a, c) {
        EqualThrough(h, Normalize(h, a), Normalize(h, b), Normalize(h, c));
      }
    }
  }

  // ---------------------------------------------------------------------------
  // The evaluations with the real comparison
  // ---------------------------------------------------------------------------

  /** No condition has a bad pattern, and no number overflows. */
  ghost predicate NeverRaises(h: Host) {
    (forall p, s :: h.search(p, s).Some?) && forall v :: !h.number(v).Overflow?
  }

  lemma RealSettingReplies(h: Host, c: Context, clock: string -> Value, entry: Entry)
    requires NeverRaises(h)
    ensures Holds(SettingOf(h, c, clock), entry).Some?
  {
    if entry.Condition? && OperatorOf(entry.op).Some? {
      RaisesExactly(h, Resolve(entry.field, c, clock), OperatorOf(entry.op).value, entry.value);
    }
  }

  /** With the code's own resolution and comparison: the two evaluations agree, in any order of the conditions. */
  lemma RealEvaluationsAgree(h: Host, c: Context, clock: string -> Value, cs: seq<Entry>, ds: seq<Entry>)
    requires NeverRaises(h) && multiset(cs) == multiset(ds)
    ensures var s := SettingOf(h, c, clock);
            && Verdict(s, cs) == FullVerdict(s, cs) == Verdict(s, ds)
            && Verdict(s, cs) == Some(AllHold(s, cs))
  {
    var s := SettingOf(h, c, clock);
    forall i | 0 <= i < |cs| ensures Holds(s, cs[i]).Some? {
      RealSettingReplies(h, c, clock, cs[i]);
    }
    AgreeExactly(s, cs);
    OrderIsImmaterial(s, cs, ds);
  }

  // ---------------------------------------------------------------------------
  // Paths
  // ---------------------------------------------------------------------------

  /** The nested dicts that hold one value under a path. */
  function Nest(parts: seq<string>, v: Value): Value {
    if parts == [] then v else Dict(map[parts[0] := Nest(parts[1..], v)])
  }

  function Dotted(parts: seq<string>): string
    requires parts != []
  {
    if |parts| == 1 then parts[0] else parts[0] + "." + Dotted(parts[1..])
  }

  lemma {:induction false} PartsOfOne(part: string)
    requires '.' !in part
    ensures Parts(part) == [part]
    decreases |part|
  {
    if part != "" {
      PartsOfOne(part[1..]);
      assert [part[0]] + part[1..] == part;
    }
  }

  lemma {:induction false} PartsOfText(part: string, rest: string)
    requires '.' !in part
    ensures Parts(part + "." + rest) == [part] + Parts(rest)
    decreases |part|
  {
    var whole := part + "." + rest;
    if part == "" {
      assert whole == "." + rest && whole[1..] == rest;
    } else {
      PartsOfText(part[1..], rest);
      assert whole[1..] == part[1..] + "." + rest;
      assert [part[0]] + part[1..] == part;
    }
  }

  /** Splitting a dotted field gives back its parts. */
  lemma {:induction false} PartsOfDotted(parts: seq<string>)
    requires parts != [] && forall i :: 0 <= i < |parts| ==> '.' !in parts[i]
    ensures Parts(Dotted(parts)) == parts
    decreases |parts|
  {
    if |parts| == 1 {
      PartsOfOne(parts[0]);
    } else {
      PartsOfDotted(parts[1..]);
      PartsOfText(parts[0], Dotted(parts[1..]));
    }
  }

  lemma {:induction false} WalkOfNest(parts: seq<string>, v: Value)
    ensures Walk(Nest(parts, v), parts) == v
    decreases |parts|
  {
    if parts != [] {
      WalkOfNest(parts[1..], v);
    }
  }

  /** A dotted field that nothing else claims finds the value stored under its path. */
  lemma ResolveFindsProperty(parts: seq<string>, v: Value, c: Context, clock: string -> Value)
    requires parts != [] && forall i :: 0 <= i < |parts| ==> '.' !in parts[i]
    requires var field := Dotted(parts);
             && field != "" && field !in DIRECT && field !in ALIASES && Underscored(field) !in c && !("time." <= field)
    requires "properties" in c && c["properties"] == Nest(parts, v)
    ensures Resolve(Dotted(parts), c, clock) == v
  {
    PartsOfDotted(parts);
    WalkOfNest(parts, v);
  }
}
