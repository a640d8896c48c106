// src/cli.rs, data/src/sparks/types.rs: the text forms of watch cadences and stop conditions.
module WatchText {
  import opened Prelude

  const U64_LIMIT: nat := 0x1_0000_0000_0000_0000

  datatype Cadence = Interval(secs: nat) | Cron(expr: string)

  datatype Stop = Never | UntilEventType(eventType: string) | UntilSparkStatus(sparkId: string, status: string)

  // ---- Decimal numbers ---------------------------------------------------------------------------

  function Digit(d: nat): (c: char)
    requires d < 10
    ensures '0' <= c <= '9' && c as int - '0' as int == d
  {
    ('0' as int + d) as char
  }

  function Decimal(n: nat): (s: string)
    ensures s != ""
  {
    if n < 10 then [Digit(n)] else Decimal(n / 10) + [Digit(n % 10)]
  }

  predicate AllDigits(s: string) {
    forall i :: 0 <= i < |s| ==> '0' <= s[i] <= '9'
  }

  function ValueOf(s: string): nat
    requires AllDigits(s)
  {
    if s == "" then 0 else ValueOf(s[..|s| - 1]) * 10 + (s[|s| - 1] as int - '0' as int)
  }

  // `str::parse::<u64>`: at least one digit, an optional leading plus, no overflow.
  function ParseU64(s: string): Option<nat> {
    var digits := if s != "" && s[0] == '+' then s[1..] else s;
    if digits != "" && AllDigits(digits) && ValueOf(digits) < U64_LIMIT then Some(ValueOf(digits)) else None
  }

  lemma {:induction false} DecimalValue(n: nat)
    ensures AllDigits(Decimal(n)) && ValueOf(Decimal(n)) == n
  {
    var s := Decimal(n);
    if n < 10 {
      assert s[..0] == "";
    } else {
      DecimalValue(n / 10);
      assert s[..|s| - 1] == Decimal(n / 10);
    }
  }

  lemma ParsesOwnDecimal(n: nat)
    requires n < U64_LIMIT
    ensures ParseU64(Decimal(n)) == Some(n)
  {
    DecimalValue(n);
    assert '0' <= Decimal(n)[0] <= '9';
  }

  // ---- Cadences ----------------------------------------------------------------------------------

  const INTERVAL: string := "interval-secs:"
  const CRON: string := "cron:"

  function StripPrefix(s: string, prefix: string): (r: Option<string>)
    ensures r.Some? <==> prefix <= s
    ensures r.Some? ==> s == prefix + r.value
  {
    if prefix <= s then Some(s[|prefix|..]) else None
  }

  function ToStorage(c: Cadence): string {
    match c
    case Interval(secs) => INTERVAL + Decimal(secs)
    case Cron(expr) => CRON + expr
  }

  function FromStorage(s: string): Option<Cadence> {
    match StripPrefix(s, INTERVAL)
    case Some(rest) =>
      (match ParseU64(rest) case Some(secs) => Some(Interval(secs)) case None => None)
    case None =>
      match StripPrefix(s, CRON)
      case Some(rest) => if rest == "" then None else Some(Cron(rest))
      case None => None
  }

  function ParseCadence(raw: string): Option<Cadence> {
    match FromStorage(raw)
    case Some(c) => Some(c)
    case None => match ParseU64(raw) case Some(secs) => Some(Interval(secs)) case None => None
  }

  // What `watch show` prints parses back to the same cadence, except for an empty cron expression.
  lemma CadenceRoundTrip(c: Cadence)
    requires c.Interval? ==> c.secs < U64_LIMIT
    ensures ParseCadence(ToStorage(c)) == Some(c) <==> c != Cron("")
    ensures ParseCadence(ToStorage(Cron(""))) == None
  {
    match c
    case Interval(secs) =>
      ParsesOwnDecimal(secs);
      assert (INTERVAL + Decimal(secs))[|INTERVAL|..] == Decimal(secs);
      assert CRON[0] == 'c';
    case Cron(expr) =>
      assert (CRON + expr)[0] == 'c' && INTERVAL[0] == 'i';
      assert (CRON + expr)[|CRON|..] == expr;
    assert CRON + "" == CRON && CRON[0] == 'c' && !('0' <= CRON[0] <= '9');
  }

  // Bare seconds are accepted as an interval.
  lemma BareSeconds(n: nat)
    requires n < U64_LIMIT
    ensures ParseCadence(Decimal(n)) == Some(Interval(n))
  {
    ParsesOwnDecimal(n);
    DecimalValue(n);
    assert '0' <= Decimal(n)[0] <= '9' && INTERVAL[0] == 'i' && CRON[0] == 'c';
  }

  // The texts that are a cadence: the storage forms and a bare number, with a cron expression that is not
  // empty and a number that `parse` reads.
  lemma CadenceExactly(raw: string, c: Cadence)
    ensures ParseCadence(raw) == Some(c) <==>
      match c
      case Cron(expr) => expr != "" && raw == CRON + expr
      case Interval(secs) => ParseU64(raw) == Some(secs)
                             || (INTERVAL <= raw && ParseU64(raw[|INTERVAL|..]) == Some(secs))
  {
    assert INTERVAL[0] == 'i' && CRON[0] == 'c';
    if ParseU64(raw).Some? { assert raw[0] == '+' || '0' <= raw[0] <= '9'; }
    match c
    case Cron(expr) => assert (CRON + expr)[0] == 'c' && (CRON + expr)[|CRON|..] == expr;
    case Interval(_) =>
  }

  lemma CadencesPrintDifferently(c: Cadence, d: Cadence)
    requires ToStorage(c) == ToStorage(d)
    ensures c == d
  {
    assert ToStorage(c)[0] == if c.Interval? then 'i' else 'c';
    assert ToStorage(d)[0] == if d.Interval? then 'i' else 'c';
    match c
    case Interval(m) =>
      DecimalValue(m);
      DecimalValue(d.secs);
      assert ToStorage(c)[|INTERVAL|..] == Decimal(m);
      assert ToStorage(d)[|INTERVAL|..] == Decimal(d.secs);
    case Cron(expr) =>
      assert ToStorage(c)[|CRON|..] == expr;
      assert ToStorage(d)[|CRON|..] == d.expr;
  }

  // ---- Stop conditions ---------------------------------------------------------------------------

  const EVENT: string := "event:"
  const STATUS: string := "status:"

  function LowerChar(c: char): char {
    if 'A' <= c <= 'Z' then (c as int + 32) as char else c
  }

  predicate IsNever(raw: string) {
    |raw| == 5 && forall i :: 0 <= i < 5 ==> LowerChar(raw[i]) == "never"[i]
  }

  // `split_once('=')`: before and after the first equals sign.
  function SplitOnce(s: string): Option<(string, string)> {
    if s == "" then None
    else if s[0] == '=' then Some(("", s[1..]))
    else match SplitOnce(s[1..]) case None => None case Some((a, b)) => Some(([s[0]] + a, b))
  }

  // `json` decodes the storage form; no JSON text begins with a letter e or s.
  ghost predicate JsonLike(json: string -> Option<Stop>) {
    forall s: string :: s != "" && (s[0] == 'e' || s[0] == 's') ==> json(s) == None
  }

  function ParseStop(raw: string, json: string -> Option<Stop>): Option<Stop> {
    if IsNever(raw) then Some(Never)
    else match json(raw)
      case Some(c) => Some(c)
      case None =>
        match StripPrefix(raw, EVENT)
        case Some(eventType) => Some(UntilEventType(eventType))
        case None =>
          match StripPrefix(raw, STATUS)
          case None => None
          case Some(rest) =>
            match SplitOnce(rest)
            case None => None
            case Some((sparkId, status)) => Some(UntilSparkStatus(sparkId, status))
  }

  function Shorthand(c: Stop): string {
    match c
    case Never => "never"
    case UntilEventType(eventType) => EVENT + eventType
    case UntilSparkStatus(sparkId, status) => STATUS + sparkId + "=" + status
  }

  lemma {:induction false} SplitAtFirst(a: string, b: string)
    ensures SplitOnce(a + "=" + b).Some?
    ensures '=' !in SplitOnce(a + "=" + b).value.0
    ensures '=' !in a ==> SplitOnce(a + "=" + b) == Some((a, b))
  {
    if a == "" {
      assert (a + "=" + b)[1..] == b;
    } else {
      assert (a + "=" + b)[1..] == a[1..] + "=" + b;
      SplitAtFirst(a[1..], b);
      assert [a[0]] + a[1..] == a;
      assert (a + "=" + b)[0] == a[0];
    }
  }

  // The shorthands parse back to the condition they name exactly when the spark id has no
  // equals sign, since the text is split at the first one.
  lemma StopRoundTrip(c: Stop, json: string -> Option<Stop>)
    requires JsonLike(json)
    ensures ParseStop(Shorthand(c), json) == Some(c) <==> (c.UntilSparkStatus? ==> '=' !in c.sparkId)
  {
    match c
    case Never =>
    case UntilEventType(eventType) =>
      var s := EVENT + eventType;
      assert s[0] == 'e' && LowerChar(s[0]) != "never"[0];
      assert s[|EVENT|..] == eventType;
    case UntilSparkStatus(sparkId, status) =>
      var s := STATUS + sparkId + "=" + status;
      assert s[0] == 's' && LowerChar(s[0]) != "never"[0] && EVENT[0] == 'e';
      assert s == STATUS + (sparkId + "=" + status);
      assert s[|STATUS|..] == sparkId + "=" + status;
      SplitAtFirst(sparkId, status);
  }

  // `never` in any case is no stop condition.
  lemma NeverIgnoresCase(raw: string, json: string -> Option<Stop>)
    requires |raw| == 5
    requires raw[0] in "nN" && raw[1] in "eE" && raw[2] in "vV" && raw[3] in "eE" && raw[4] in "rR"
    ensures ParseStop(raw, json) == Some(Never)
  {
    assert forall i :: 0 <= i < 5 ==> LowerChar(raw[i]) == "never"[i];
  }

  lemma StopsPrintDifferently(c: Stop, d: Stop)
    requires c.UntilSparkStatus? ==> '=' !in c.sparkId
    requires d.UntilSparkStatus? ==> '=' !in d.sparkId
    requires Shorthand(c) == Shorthand(d)
    ensures c == d
  {
    StopRoundTrip(c, s => None);
    StopRoundTrip(d, s => None);
  }
}
