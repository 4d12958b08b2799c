/** Passport Processing: blank-line separated records of `key:value` tokens; part 1
    asks for the seven required keys, part 2 also validates each required value. */
module Day04 {
  import opened Wrappers
  import opened Text
  import opened Seqs

  /** A passport maps each key to its value; a token without a colon leaves its key
      present with the value `undefined` (None). */
  type Passport = map<string, Option<string>>

  /** `cid` is deliberately absent. */
  const RequiredFields: seq<string> := ["byr", "iyr", "eyr", "hgt", "hcl", "ecl", "pid"]

  // ---- parsing ----

  /** `const [key, value] = token.split(":")`: the text before the first colon is the key;
      the value runs to the second colon, and is undefined when there is no colon. */
  function KeyOf(token: string): string {
    SplitOnChar(token, ':')[0]
  }

  function ValueOf(token: string): Option<string> {
    var parts := SplitOnChar(token, ':');
    if |parts| >= 2 then Some(parts[1]) else None
  }

  /** The record the token loop builds: each token assigns its key, later tokens overwrite. */
  function PassportOf(tokens: seq<string>): Passport {
    if tokens == [] then map[]
    else PassportOf(tokens[..|tokens| - 1])[KeyOf(tokens[|tokens| - 1]) := ValueOf(tokens[|tokens| - 1])]
  }

  /** The keys are exactly those of the tokens, and a repeated key keeps the value of its last token. */
  lemma {:induction false} LastValueWins(tokens: seq<string>, key: string)
    ensures key in PassportOf(tokens) <==> exists i :: 0 <= i < |tokens| && KeyOf(tokens[i]) == key
    ensures key in PassportOf(tokens) ==>
              exists i :: 0 <= i < |tokens| && KeyOf(tokens[i]) == key && PassportOf(tokens)[key] == ValueOf(tokens[i])
                          && forall j :: i < j < |tokens| ==> KeyOf(tokens[j]) != key
  {
    PassportKeys(tokens, key);
    if key in PassportOf(tokens) {
      PassportLastValue(tokens, key);
    }
  }

  lemma {:induction false} PassportKeys(tokens: seq<string>, key: string)
    ensures key in PassportOf(tokens) <==> exists i :: 0 <= i < |tokens| && KeyOf(tokens[i]) == key
  {
    if tokens != [] {
      var n := |tokens| - 1;
      var init := tokens[..n];
      PassportKeys(init, key);
      if key in PassportOf(tokens) && KeyOf(tokens[n]) != key {
        var i :| 0 <= i < n && KeyOf(init[i]) == key;
        assert tokens[i] == init[i];
      }
      if exists i :: 0 <= i < |tokens| && KeyOf(tokens[i]) == key {
        var i :| 0 <= i < |tokens| && KeyOf(tokens[i]) == key;
        if i < n {
          assert init[i] == tokens[i];
        }
      }
    }
  }

  lemma {:induction false} PassportLastValue(tokens: seq<string>, key: string)
    requires key in PassportOf(tokens)
    ensures exists i :: 0 <= i < |tokens| && KeyOf(tokens[i]) == key && PassportOf(tokens)[key] == ValueOf(tokens[i])
                        && forall j :: i < j < |tokens| ==> KeyOf(tokens[j]) != key
  {
    var n := |tokens| - 1;
    var init := tokens[..n];
    if KeyOf(tokens[n]) == key {
      assert PassportOf(tokens)[key] == ValueOf(tokens[n]);
    } else {
      PassportLastValue(init, key);
      var i :| 0 <= i < n && KeyOf(init[i]) == key && PassportOf(init)[key] == ValueOf(init[i])
               && forall j :: i < j < n ==> KeyOf(init[j]) != key;
      assert tokens[i] == init[i];
      assert forall j :: i < j < n ==> tokens[j] == init[j];
    }
  }

  /** The tokens of one passport block: its fields are separated by spaces or newlines. */
  function Tokens(block: string): seq<string> {
    SplitOnWhitespace(block)
  }

  /** The loop of `parsePassports` for one block. */
  method ParsePassport(block: string) returns (passport: Passport)
    ensures passport == PassportOf(Tokens(block))
  {
    var tokens := SplitOnWhitespace(block);
    passport := map[];
    for i := 0 to |tokens|
      invariant passport == PassportOf(tokens[..i])
    {
      var parts := SplitOnChar(tokens[i], ':');
      var key := parts[0];
      var value := if |parts| >= 2 then Some(parts[1]) else None;
      assert tokens[..i + 1][..i] == tokens[..i];
      passport := passport[key := value];
    }
    assert tokens[..|tokens|] == tokens;
  }

  /** `parsePassports`: one record per `\n\n` block of the raw text. */
  function ParsePassports(rawText: string): (passports: seq<Passport>)
    ensures |passports| == |SplitOnString(rawText, "\n\n")|
    ensures forall i :: 0 <= i < |passports| ==> passports[i] == PassportOf(Tokens(SplitOnString(rawText, "\n\n")[i]))
  {
    var blocks := SplitOnString(rawText, "\n\n");
    seq(|blocks|, i requires 0 <= i < |blocks| => PassportOf(Tokens(blocks[i])))
  }

  // ---- part 1 ----

  predicate HasAllRequiredFields(passport: Passport) {
    forall i :: 0 <= i < |RequiredFields| ==> RequiredFields[i] in passport
  }

  /** The seven keys, and only they, are required. */
  lemma RequiredFieldsAre(passport: Passport)
    ensures HasAllRequiredFields(passport) <==>
              "byr" in passport && "iyr" in passport && "eyr" in passport && "hgt" in passport
              && "hcl" in passport && "ecl" in passport && "pid" in passport
  {
    if "byr" in passport && "iyr" in passport && "eyr" in passport && "hgt" in passport
       && "hcl" in passport && "ecl" in passport && "pid" in passport
    {
      forall i | 0 <= i < |RequiredFields| ensures RequiredFields[i] in passport {
        assert RequiredFields[i] in ["byr", "iyr", "eyr", "hgt", "hcl", "ecl", "pid"];
      }
    } else {
      assert RequiredFields[0] == "byr" && RequiredFields[1] == "iyr" && RequiredFields[2] == "eyr";
      assert RequiredFields[3] == "hgt" && RequiredFields[4] == "hcl" && RequiredFields[5] == "ecl";
      assert RequiredFields[6] == "pid";
    }
  }

  // ---- part 2 validators ----

  /** `/^\d{4}$/` and the range check; an undefined value reads as the text "undefined". */
  predicate IsValidYear(value: Option<string>, min: nat, max: nat) {
    value.Some? && |value.value| == 4 && IsDigits(value.value) && min <= DecimalValue(value.value) <= max
  }

  /** `^(\d+)(cm|in)$` and the range of the unit. */
  predicate IsValidHeight(value: string) {
    |value| >= 3 && IsDigits(value[..|value| - 2])
    && var amount := DecimalValue(value[..|value| - 2]);
       var unit := value[|value| - 2..];
       (unit == "cm" && 150 <= amount <= 193) || (unit == "in" && 59 <= amount <= 76)
  }

  predicate IsLowerHexDigit(c: char) { '0' <= c <= '9' || 'a' <= c <= 'f' }

  /** `/^#[0-9a-f]{6}$/`. */
  predicate IsValidHairColor(value: Option<string>) {
    value.Some? && |value.value| == 7 && value.value[0] == '#'
    && forall i :: 1 <= i < 7 ==> IsLowerHexDigit(value.value[i])
  }

  const EyeColors: seq<string> := ["amb", "blu", "brn", "gry", "grn", "hzl", "oth"]

  predicate IsValidEyeColor(value: Option<string>) {
    value.Some? && value.value in EyeColors
  }

  /** `/^\d{9}$/`. */
  predicate IsValidPassportId(value: Option<string>) {
    value.Some? && |value.value| == 9 && IsDigits(value.value)
  }

  /** `isStrictlyValid`. Its checks run in order and stop at the first failure; the height
      check calls `match` on the value, which throws when the value is undefined. */
  function IsStrictlyValid(passport: Passport): (r: Result<bool>)
    ensures r == Success(true) ==> HasAllRequiredFields(passport)
  {
    if !HasAllRequiredFields(passport) then Success(false)
    else
      assert RequiredFields[0] == "byr" && RequiredFields[1] == "iyr" && RequiredFields[2] == "eyr";
      assert RequiredFields[3] == "hgt" && RequiredFields[4] == "hcl" && RequiredFields[5] == "ecl";
      assert RequiredFields[6] == "pid";
      if !IsValidYear(passport["byr"], 1920, 2002) || !IsValidYear(passport["iyr"], 2010, 2020)
         || !IsValidYear(passport["eyr"], 2020, 2030)
      then Success(false)
      else
        match passport["hgt"]
        case None => Failure("TypeError: Cannot read properties of undefined (reading 'match')")
        case Some(height) =>
          Success(IsValidHeight(height) && IsValidHairColor(passport["hcl"])
                  && IsValidEyeColor(passport["ecl"]) && IsValidPassportId(passport["pid"]))
  }

  /** A four-digit year is valid exactly when it lies in the range. */
  lemma YearInRange(year: nat, min: nat, max: nat)
    requires 1000 <= year <= 9999
    ensures IsValidYear(Some(Decimal(year)), min, max) <==> min <= year <= max
  {
    DecimalRoundTrip(year);
    assert Pow10(3) == 1000;
    DecimalLength(year, 1000, 4);
  }

  /** A year of any other length is invalid, whatever its value. */
  lemma YearNeedsFourDigits(value: string, min: nat, max: nat)
    requires |value| != 4
    ensures !IsValidYear(Some(value), min, max)
  {
  }

  /** A height is valid exactly when its number is in the range of its unit. */
  lemma HeightInRange(amount: nat)
    ensures IsValidHeight(Decimal(amount) + "cm") <==> 150 <= amount <= 193
    ensures IsValidHeight(Decimal(amount) + "in") <==> 59 <= amount <= 76
  {
    DecimalRoundTrip(amount);
    var d := Decimal(amount);
    assert (d + "cm")[..|d + "cm"| - 2] == d && (d + "cm")[|d + "cm"| - 2..] == "cm";
    assert (d + "in")[..|d + "in"| - 2] == d && (d + "in")[|d + "in"| - 2..] == "in";
  }

  /** A height without a unit, or with another unit, is invalid. */
  lemma HeightNeedsUnit(value: string)
    requires |value| < 2 || (value[|value| - 2..] != "cm" && value[|value| - 2..] != "in")
    ensures !IsValidHeight(value)
  {
  }

  /** Upper-case hex digits are rejected. */
  lemma HairColorIsLowerCase(value: string, i: nat)
    requires 1 <= i < |value| && 'A' <= value[i] <= 'F'
    ensures !IsValidHairColor(Some(value))
  {
  }

  /** Leading zeros are allowed in a passport id. */
  lemma PassportIdLeadingZeros()
    ensures IsValidPassportId(Some("000000001"))
  {
  }

  /** Only the required keys matter: adding or changing any other key, `cid` included,
      changes neither verdict. */
  lemma OtherKeysIgnored(passport: Passport, key: string, value: Option<string>)
    requires key !in RequiredFields
    ensures HasAllRequiredFields(passport[key := value]) == HasAllRequiredFields(passport)
    ensures IsStrictlyValid(passport[key := value]) == IsStrictlyValid(passport)
  {
    assert RequiredFields[0] == "byr" && RequiredFields[1] == "iyr" && RequiredFields[2] == "eyr";
    assert RequiredFields[3] == "hgt" && RequiredFields[4] == "hcl" && RequiredFields[5] == "ecl";
    assert RequiredFields[6] == "pid";
  }

  /** In particular `cid` is optional: it never changes either verdict. */
  lemma CidIgnored(passport: Passport, value: Option<string>)
    ensures HasAllRequiredFields(passport["cid" := value]) == HasAllRequiredFields(passport)
    ensures IsStrictlyValid(passport["cid" := value]) == IsStrictlyValid(passport)
  {
    OtherKeysIgnored(passport, "cid", value);
  }

  // ---- solve ----

  /** `passports.filter(isStrictlyValid).length`: the first passport whose check throws aborts the count. */
  function CountStrictlyValid(passports: seq<Passport>): (r: Result<nat>)
    ensures r.Success? <==> forall i :: 0 <= i < |passports| ==> IsStrictlyValid(passports[i]).Success?
    ensures r.Success? ==> r.value <= CountWhere(passports, HasAllRequiredFields)
  {
    if passports == [] then Success(0)
    else
      var valid :- IsStrictlyValid(passports[0]);
      var rest :- CountStrictlyValid(passports[1..]);
      assert forall i :: 1 <= i < |passports| ==> passports[i] == passports[1..][i - 1];
      Success((if valid then 1 else 0) + rest)
  }

  /** Part 1 counts the passports with every required key, part 2 the strictly valid ones,
      which are among them. */
  function Solve(rawText: string): (r: Result<(nat, nat)>)
    ensures var passports := ParsePassports(rawText);
            r.Success? <==> forall i :: 0 <= i < |passports| ==> IsStrictlyValid(passports[i]).Success?
    ensures r.Success? ==> r.value.1 <= r.value.0 <= |SplitOnString(rawText, "\n\n")|
  {
    var passports := ParsePassports(rawText);
    var part2 :- CountStrictlyValid(passports);
    Success((CountWhere(passports, HasAllRequiredFields), part2))
  }
}
