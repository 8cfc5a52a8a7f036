/** Memory sizes in docker requests and grants (docker_capability.py:82-111, 149-168). */
module DockerMemory {
  import opened Flows
  import opened Orders
  import opened Texts

  const KIB := 1024
  const MIB := 1048576
  const GIB := 1073741824

  const ABSOLUTE_MAX_MEMORY := "1g"
  const DEFAULT_MEMORY := "256m"

  function Lower(s: string): (r: string)
    ensures |r| == |s|
  {
    seq(|s|, i requires 0 <= i < |s| => if 'A' <= s[i] <= 'Z' then s[i] + ' ' else s[i])
  }

  function DigitRun(s: string): (n: nat)
    ensures n <= |s| && (forall i :: 0 <= i < n ==> IsDigit(s[i])) && (n < |s| ==> !IsDigit(s[n]))
  {
    if s == "" || !IsDigit(s[0]) then 0 else 1 + DigitRun(s[1..])
  }

  function SpaceRun(s: string): (n: nat)
    ensures n <= |s| && (forall i :: 0 <= i < n ==> IsSpace(s[i])) && (n < |s| ==> !IsSpace(s[n]))
  {
    if s == "" || !IsSpace(s[0]) then 0 else 1 + SpaceRun(s[1..])
  }

  predicate IsUnit(unit: string) { unit == "" || unit == "k" || unit == "m" || unit == "g" }

  function Times(n: nat, unit: string): nat {
    if unit == "k" then n * KIB else if unit == "m" then n * MIB else if unit == "g" then n * GIB else n
  }

  /** The pattern: digits, blanks, a unit. */
  function ParseLower(s: string): Option<nat> {
    var d := DigitRun(s);
    var rest := s[d..];
    var unit := rest[SpaceRun(rest)..];
    if d == 0 || !IsUnit(unit) then None else Some(Times(Number(s[..d]), unit))
  }

  /** None is the ValueError. */
  function ParseMemory(text: string): Option<nat> { ParseLower(Lower(Strip(text))) }

  function FormatMemory(n: nat): string {
    if n >= GIB && n % GIB == 0 then Decimal(n / GIB) + "g"
    else if n >= MIB && n % MIB == 0 then Decimal(n / MIB) + "m"
    else if n >= KIB && n % KIB == 0 then Decimal(n / KIB) + "k"
    else Decimal(n)
  }

  // ---------------------------------------------------------------------- grammar

  lemma DigitRunIs(s: string, n: nat)
    requires n <= |s| && (forall i :: 0 <= i < n ==> IsDigit(s[i])) && (n < |s| ==> !IsDigit(s[n]))
    ensures DigitRun(s) == n
  {
  }

  lemma SpaceRunIs(s: string, n: nat)
    requires n <= |s| && (forall i :: 0 <= i < n ==> IsSpace(s[i])) && (n < |s| ==> !IsSpace(s[n]))
    ensures SpaceRun(s) == n
  {
  }

  /** What a stripped, lower-case size looks like. */
  ghost predicate Spelled(s: string, digits: string, gap: string, unit: string) {
    && s == digits + gap + unit && digits != "" && AllDigits(digits) && AllSpace(gap)
    && IsUnit(unit) && (unit == "" ==> gap == "")
  }

  lemma SpelledParts(s: string, digits: string, gap: string, unit: string)
    requires Spelled(s, digits, gap, unit)
    ensures DigitRun(s) == |digits| && s[..|digits|] == digits
    ensures SpaceRun(s[|digits|..]) == |gap| && s[|digits|..][|gap|..] == unit
  {
    var rest := s[|digits|..];
    assert rest == gap + unit;
    assert s[..|digits|] == digits && rest[..|gap|] == gap && rest[|gap|..] == unit;
    if rest != "" { assert s[|digits|] == rest[0]; }
    DigitRunIs(s, |digits|);
    SpaceRunIs(rest, |gap|);
  }

  /** A size in any case, with blanks around it and before its unit, is read as its number times the unit. */
  lemma ParseSpelled(text: string, digits: string, gap: string, unit: string)
    requires Spelled(Lower(Strip(text)), digits, gap, unit)
    ensures ParseMemory(text) == Some(Times(Number(digits), unit))
  {
    SpelledParts(Lower(Strip(text)), digits, gap, unit);
  }

  lemma Cut(s: string, n: nat)
    requires n <= |s|
    ensures s == s[..n] + s[n..]
  {
  }

  /** The pieces the pattern cuts a string into. */
  lemma ParsedPieces(s: string) returns (digits: string, gap: string, unit: string)
    requires ParseLower(s).Some? && !IsSpace(s[|s| - 1])
    ensures Spelled(s, digits, gap, unit)
  {
    var d := DigitRun(s);
    var rest := s[d..];
    digits, gap, unit := s[..d], rest[..SpaceRun(rest)], rest[SpaceRun(rest)..];
    Cut(s, d);
    Cut(rest, SpaceRun(rest));
    Reassociate(digits, gap, unit);
    NoTrailingGap(s, rest);
  }

  lemma NoTrailingGap(s: string, rest: string)
    requires rest != "" ==> |s| >= |rest| && s[|s| - 1] == rest[|rest| - 1]
    requires s != "" && !IsSpace(s[|s| - 1])
    ensures rest == "" || SpaceRun(rest) < |rest|
  {
  }

  lemma LastIsNoSpace(text: string)
    ensures var s := Lower(Strip(text)); s == "" || !IsSpace(s[|s| - 1])
  {
  }

  /** Nothing else is accepted. */
  lemma ParsedIsSpelled(text: string) returns (digits: string, gap: string, unit: string)
    requires ParseMemory(text).Some?
    ensures Spelled(Lower(Strip(text)), digits, gap, unit)
  {
    LastIsNoSpace(text);
    digits, gap, unit := ParsedPieces(Lower(Strip(text)));
  }

  // -------------------------------------------------------------------- round trip

  /** Digits and a lower-case unit survive stripping and lower-casing. */
  lemma PlainSize(digits: string, unit: string)
    requires digits != "" && AllDigits(digits) && IsUnit(unit)
    ensures Lower(Strip(digits + unit)) == digits + unit
  {
  }

  lemma ParseDigits(digits: string, unit: string)
    requires digits != "" && AllDigits(digits) && IsUnit(unit)
    ensures ParseMemory(digits + unit) == Some(Times(Number(digits), unit))
  {
    PlainSize(digits, unit);
    assert digits + unit == digits + "" + unit;
    ParseSpelled(digits + unit, digits, "", unit);
  }

  lemma ParseDecimal(n: nat, unit: string)
    requires IsUnit(unit)
    ensures ParseMemory(Decimal(n) + unit) == Some(Times(n, unit))
  {
    ParseDigits(Decimal(n), unit);
    NumberDecimal(n);
  }

  lemma FormatShape(n: nat) returns (q: nat, unit: string)
    ensures IsUnit(unit) && FormatMemory(n) == Decimal(q) + unit && Times(q, unit) == n
  {
    if n >= GIB && n % GIB == 0 {
      q, unit := n / GIB, "g";
    } else if n >= MIB && n % MIB == 0 {
      q, unit := n / MIB, "m";
    } else if n >= KIB && n % KIB == 0 {
      q, unit := n / KIB, "k";
    } else {
      q, unit := n, "";
      assert Decimal(n) + "" == Decimal(n);
    }
  }

  /** Formatting a size loses nothing. */
  lemma ParseFormat(n: nat)
    ensures ParseMemory(FormatMemory(n)) == Some(n)
  {
    var q, unit := FormatShape(n);
    ParseDecimal(q, unit);
  }

  // ------------------------------------------------------------------------ limits

  function Min(a: nat, b: nat): nat { if a <= b then a else b }

  /** None when a size cannot be parsed. An empty request counts as none; an empty grant maximum does not. */
  function EffectiveMemory(request: Option<string>, grantMax: Option<string>): Option<string> {
    var grantStr := if grantMax.Some? then grantMax.value else DEFAULT_MEMORY;
    match (ParseMemory(ABSOLUTE_MAX_MEMORY), ParseMemory(grantStr), ParseMemory(DEFAULT_MEMORY))
    case (Some(absolute), Some(grant), Some(default)) =>
      var limit := Min(grant, absolute);
      if request.Some? && request.value != "" then
        (match ParseMemory(request.value)
         case Some(requested) => Some(FormatMemory(Min(requested, limit)))
         case None => None)
      else Some(FormatMemory(Min(default, limit)))
    case _ => None
  }

  lemma OneGibibyte()
    ensures ParseMemory(ABSOLUTE_MAX_MEMORY) == Some(GIB)
  {
  }

  lemma DefaultSize()
    ensures ParseMemory(DEFAULT_MEMORY) == Some(256 * MIB)
  {
    assert "2"[..0] == "" && "25"[..1] == "2" && "256"[..2] == "25";
    assert Number("2") == 2 && Number("25") == 25 && Number("256") == 256;
    ParseDigits("256", "m");
    assert "256" + "m" == "256m";
  }

  /** The container gets the least of what was asked for (256 MiB if nothing was), what the grant allows (256 MiB if it
      does not say) and one gibibyte; it is refused exactly when one of the given sizes is not a size. */
  lemma EffectiveMemoryIsMinimum(request: Option<string>, grantMax: Option<string>)
    ensures var asked := ParseMemory(if request.Some? && request.value != "" then request.value else DEFAULT_MEMORY);
            var allowed := ParseMemory(if grantMax.Some? then grantMax.value else DEFAULT_MEMORY);
            var r := EffectiveMemory(request, grantMax);
            && (r.Some? <==> asked.Some? && allowed.Some?)
            && (r.Some? ==> ParseMemory(r.value) == Some(Min(asked.value, Min(allowed.value, GIB))))
  {
    OneGibibyte();
    DefaultSize();
    var r := EffectiveMemory(request, grantMax);
    var asked := ParseMemory(if request.Some? && request.value != "" then request.value else DEFAULT_MEMORY);
    var allowed := ParseMemory(if grantMax.Some? then grantMax.value else DEFAULT_MEMORY);
    if asked.Some? && allowed.Some? { ParseFormat(Min(asked.value, Min(allowed.value, GIB))); }
  }

  /** The units are powers of 1024. */
  lemma UnitsExactly(n: nat)
    ensures Times(n, "") == n && Times(n, "k") == 1024 * n && Times(n, "m") == 1024 * 1024 * n
    ensures Times(n, "g") == 1024 * 1024 * 1024 * n
    ensures GIB == 1024 * 1024 * 1024 && ParseMemory(DEFAULT_MEMORY) == Some(256 * 1024 * 1024)
  {
    DefaultSize();
  }
}
