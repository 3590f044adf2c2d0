/** Actor identities, the decimal text they are printed as, and the Redis keys built from them. */
module ActorKeys {
  import opened Wrappers

  const INT64_BOUND: int := 0x8000_0000_0000_0000
  const UINT16_BOUND: int := 0x1_0000

  type Category = c: int | 0 <= c < UINT16_BOUND
  type ActorID = i: int | -INT64_BOUND <= i < INT64_BOUND

  datatype ActorUID = ActorUID(category: Category, id: ActorID) {
    predicate IsZero() { category == 0 && id == 0 }
  }

  // ---------- decimal printing (the %d verb) ----------

  function Digit(d: nat): char
    requires d < 10
  {
    ('0' as int + d) as char
  }

  predicate IsDigit(c: char) { '0' <= c <= '9' }

  function Digits(n: nat): (s: string)
    ensures |s| > 0 && forall c <- s :: IsDigit(c)
  {
    if n < 10 then [Digit(n)] else Digits(n / 10) + [Digit(n % 10)]
  }

  function FormatInt(x: int): string {
    if x < 0 then "-" + Digits(-x) else Digits(x)
  }

  // ---------- decimal parsing (strconv.ParseInt with base 10, 64 bits) ----------

  function DigitsValue(s: string): nat
    requires forall c <- s :: IsDigit(c)
  {
    if s == [] then 0
    else
      assert IsDigit(s[|s| - 1]);
      DigitsValue(s[..|s| - 1]) * 10 + (s[|s| - 1] as int - '0' as int)
  }

  function ParseInt64(s: string): Option<ActorID> {
    var signed := |s| > 0 && (s[0] == '-' || s[0] == '+');
    var rest := if signed then s[1..] else s;
    if rest == [] || exists c <- rest :: !IsDigit(c) then None
    else
      var magnitude: int := DigitsValue(rest);
      var x := if signed && s[0] == '-' then -magnitude else magnitude;
      if -INT64_BOUND <= x < INT64_BOUND then Some(x) else None
  }

  /** strings.Cut at the first occurrence of a one-character separator. */
  function Cut(s: string, sep: char): Option<(string, string)> {
    if s == [] then None
    else if s[0] == sep then Some(([], s[1..]))
    else match Cut(s[1..], sep)
      case None => None
      case Some((before, after)) => Some(([s[0]] + before, after))
  }

  lemma {:induction false} CutAtFirst(before: string, sep: char, after: string)
    requires sep !in before
    ensures Cut(before + [sep] + after, sep) == Some((before, after))
  {
    var s := before + [sep] + after;
    if before == [] {
      assert s[1..] == after;
    } else {
      assert s[1..] == before[1..] + [sep] + after;
      CutAtFirst(before[1..], sep, after);
      assert [s[0]] + before[1..] == before;
    }
  }

  lemma {:induction false} CutSplits(s: string, sep: char)
    ensures Cut(s, sep).None? <==> sep !in s
    ensures Cut(s, sep).Some? ==>
              var (before, after) := Cut(s, sep).value;
              s == before + [sep] + after && sep !in before
  {
    if s != [] && s[0] != sep {
      CutSplits(s[1..], sep);
      assert s == [s[0]] + s[1..];
    } else if s != [] {
      assert s == [] + [sep] + s[1..];
    }
  }

  // ---------- keys and payloads ----------

  /** genActorUIDPayload */
  function UIDPayload(uid: ActorUID): string {
    FormatInt(uid.category) + ":" + FormatInt(uid.id)
  }

  /** genActorRegKey */
  function RegKey(uid: ActorUID): string { "actor_reg:" + UIDPayload(uid) }

  /** genActorServerKey */
  function ServerKey(uid: ActorUID): string { "actor_server:" + UIDPayload(uid) }

  datatype PayloadError = NoSeparator | BadCategory | BadId

  /** parseActorUIDPayload; the conversion to ActorCategory keeps the low 16 bits. */
  function ParseUIDPayload(payload: string): Result<ActorUID, PayloadError> {
    match Cut(payload, ':')
    case None => Err(NoSeparator)
    case Some((categoryText, idText)) =>
      match ParseInt64(categoryText)
      case None => Err(BadCategory)
      case Some(category) =>
        match ParseInt64(idText)
        case None => Err(BadId)
        case Some(id) => Ok(ActorUID(category % UINT16_BOUND, id))
  }

  lemma {:induction false} DigitsRoundTrip(n: nat)
    ensures DigitsValue(Digits(n)) == n
  {
    if n >= 10 {
      var s := Digits(n);
      assert s[..|s| - 1] == Digits(n / 10);
      DigitsRoundTrip(n / 10);
    }
  }

  lemma {:induction false} FormatParse(x: ActorID)
    ensures ParseInt64(FormatInt(x)) == Some(x)
    ensures ':' !in FormatInt(x)
  {
    var m: int := x;
    var n: nat := if m < 0 then -m else m;
    DigitsRoundTrip(n);
    assert x < 0 ==> FormatInt(x)[1..] == Digits(n);
    assert x >= 0 ==> IsDigit(FormatInt(x)[0]);
  }

  /** Every digit counts for its decimal place, and printing writes no superfluous zero. */
  lemma {:induction false} DecimalPlaces(s: string, c: char)
    requires IsDigit(c) && forall d <- s :: IsDigit(d)
    ensures forall d <- [c] + s :: IsDigit(d)
    ensures DigitsValue([c] + s) == (c as int - 48) * Pow10(|s|) + DigitsValue(s)
  {
    if s == [] {
      assert [c] + s == [c] && [c][..0] == [];
    } else {
      var init := s[..|s| - 1];
      assert ([c] + s)[..|s|] == [c] + init;
      DecimalPlaces(init, c);
      TenTimes(c as int - 48, Pow10(|init|), DigitsValue(init));
    }
  }

  lemma TenTimes(digit: int, power: int, rest: int)
    ensures (digit * power + rest) * 10 == digit * (10 * power) + rest * 10
  {
  }

  function Pow10(n: nat): nat { if n == 0 then 1 else 10 * Pow10(n - 1) }

  lemma {:induction false} NoLeadingZero(n: nat)
    requires n > 0
    ensures Digits(n)[0] != '0'
  {
    if n >= 10 {
      NoLeadingZero(n / 10);
    }
  }

  /** What text is a number: an optional sign, then digits whose value, with the sign, fits 64 bits. */
  lemma ParsedExactly(s: string, x: ActorID)
    ensures ParseInt64(s) == Some(x) <==>
              exists digits: string |
                && digits != [] && (forall c <- digits :: IsDigit(c))
                && (s == digits || s == "+" + digits || s == "-" + digits) ::
                x == if s[0] == '-' then -(DigitsValue(digits) as int) else DigitsValue(digits)
  {
    if ParseInt64(s) == Some(x) {
      var signed := s[0] == '-' || s[0] == '+';
      var digits := if signed then s[1..] else s;
      assert s == digits || s == "+" + digits || s == "-" + digits;
    }
    if digits: string :| && digits != [] && (forall c <- digits :: IsDigit(c))
                         && (s == digits || s == "+" + digits || s == "-" + digits)
                         && x == if s[0] == '-' then -(DigitsValue(digits) as int) else DigitsValue(digits) {
      assert s != digits ==> s[1..] == digits;
      assert s == digits ==> IsDigit(s[0]);
    }
  }

  /** What the keys of an actor look like. */
  lemma PrintedKeys()
    ensures RegKey(ActorUID(3, -45)) == "actor_reg:3:-45" && ServerKey(ActorUID(3, -45)) == "actor_server:3:-45"
  {
  }

  /** Parsing a payload undoes printing it, for every actor. */
  lemma PayloadRoundTrip(uid: ActorUID)
    ensures ParseUIDPayload(UIDPayload(uid)) == Ok(uid)
  {
    FormatParse(uid.category);
    FormatParse(uid.id);
    CutAtFirst(FormatInt(uid.category), ':', FormatInt(uid.id));
    assert UIDPayload(uid) == FormatInt(uid.category) + [':'] + FormatInt(uid.id);
  }

  /** A payload is read exactly if both sides of its first colon are numbers; the category keeps its low 16 bits. */
  lemma PayloadParsed(payload: string, category: string, id: string)
    ensures ':' !in payload ==> ParseUIDPayload(payload) == Err(NoSeparator)
    ensures payload == category + ":" + id && ':' !in category ==>
              ParseUIDPayload(payload) ==
              if ParseInt64(category).None? then Err(BadCategory)
              else if ParseInt64(id).None? then Err(BadId)
              else Ok(ActorUID(ParseInt64(category).value % 0x1_0000, ParseInt64(id).value))
  {
    CutSplits(payload, ':');
    if payload == category + ":" + id && ':' !in category {
      CutAtFirst(category, ':', id);
    }
  }

  /** Different actors never share a registration key or a server key, and no key is both. */
  lemma KeysSeparate(u: ActorUID, v: ActorUID)
    ensures RegKey(u) == RegKey(v) <==> u == v
    ensures ServerKey(u) == ServerKey(v) <==> u == v
    ensures RegKey(u) != ServerKey(v)
  {
    PayloadRoundTrip(u);
    PayloadRoundTrip(v);
    assert RegKey(u)[10..] == UIDPayload(u) && RegKey(v)[10..] == UIDPayload(v);
    assert ServerKey(u)[13..] == UIDPayload(u) && ServerKey(v)[13..] == UIDPayload(v);
    assert RegKey(u)[6] == 'r' && ServerKey(v)[6] == 's';
  }
}
