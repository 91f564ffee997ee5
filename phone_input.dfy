/**
 * The phone number field (src/components/phone-input.tsx): splitting an
 * E.164 value into a country code and a local number, and the two state
 * transitions of the field (typing a local number, picking a country) with
 * the value each emits. The component's React state is the `PhoneState`
 * value; each handler is a function from the old state to the new state and
 * the emitted value. Display formatting and the country dropdown are not
 * part of this model.
 */
module PhoneInput {
  import opened Wrappers
  import opened Strings
  import opened Seqs

  /** A row of the country table: the dialling code and the longest local
      number accepted. */
  datatype Country = Country(code: string, maxLen: nat)

  const Countries: seq<Country> := [
    Country("+1", 10), Country("+44", 10), Country("+86", 11), Country("+852", 8),
    Country("+886", 9), Country("+81", 10), Country("+82", 10), Country("+65", 8),
    Country("+60", 10), Country("+61", 9), Country("+91", 10), Country("+66", 9)]

  /** The code is one of the table's codes. */
  predicate IsTableCode(code: string)
  {
    exists k | 0 <= k < |Countries| :: Countries[k].code == code
  }

  /** No code of the table is a prefix of another. */
  predicate PrefixFree(cs: seq<Country>)
  {
    forall i, j | 0 <= i < |cs| && 0 <= j < |cs| && i != j :: !StartsWith(cs[i].code, cs[j].code)
  }

  /** Every code has at least one character. */
  predicate NonEmptyCodes(cs: seq<Country>)
  {
    forall k | 0 <= k < |cs| :: cs[k].code != ""
  }

  /** Codes never get shorter along the list. */
  predicate LongestFirst(cs: seq<Country>)
  {
    forall i, j | 0 <= i < j < |cs| :: |cs[i].code| >= |cs[j].code|
  }

  /** x placed before the first entry whose code is no longer than its own,
      so entries of equal length keep their order. */
  function InsertByLength(x: Country, cs: seq<Country>): seq<Country>
  {
    if |cs| == 0 || |x.code| >= |cs[0].code| then [x] + cs
    else [cs[0]] + InsertByLength(x, cs[1..])
  }

  /** `[...COUNTRIES].sort((a, b) => b.code.length - a.code.length)`. */
  function SortByCodeLength(cs: seq<Country>): seq<Country>
  {
    if |cs| == 0 then [] else InsertByLength(cs[0], SortByCodeLength(cs[1..]))
  }

  /** Inserting into a longest-first list keeps it longest first and adds
      exactly x. */
  lemma {:induction false} InsertByLengthFacts(x: Country, cs: seq<Country>)
    requires LongestFirst(cs)
    ensures var r := InsertByLength(x, cs);
      LongestFirst(r) && multiset(r) == multiset(cs) + multiset{x} &&
      (r[0] == x || (|cs| > 0 && r[0] == cs[0]))
  {
    if |cs| > 0 && |x.code| < |cs[0].code| {
      InsertByLengthFacts(x, cs[1..]);
      var rest := InsertByLength(x, cs[1..]);
      assert cs == [cs[0]] + cs[1..];
      assert |cs[0].code| >= |rest[0].code|;
    }
  }

  /** The sorted copy has the same rows, each as often, longest code first. */
  lemma {:induction false} SortByCodeLengthFacts(cs: seq<Country>)
    ensures LongestFirst(SortByCodeLength(cs))
    ensures multiset(SortByCodeLength(cs)) == multiset(cs)
  {
    if |cs| > 0 {
      SortByCodeLengthFacts(cs[1..]);
      InsertByLengthFacts(cs[0], SortByCodeLength(cs[1..]));
      assert cs == [cs[0]] + cs[1..];
    }
  }

  /** `value.replace(/^\+/, '')`: one leading '+' removed. */
  function DropPlus(value: string): string
  {
    if |value| > 0 && value[0] == '+' then value[1..] else value
  }

  /** `parseE164` over a given table: the first code of the table, sorted
      longest first, that starts the value, and the rest of the value; "+1"
      when the value is empty or no code matches. */
  function ParseWith(table: seq<Country>, value: string): (string, string)
  {
    if value == "" then ("+1", "")
    else
      var sorted := SortByCodeLength(table);
      match FindIndex(sorted, (c: Country) => StartsWith(value, c.code))
      case Some(i) => (sorted[i].code, value[|sorted[i].code|..])
      case None => ("+1", DropPlus(value))
  }

  /** `parseE164(value)` over the country table. */
  function ParseE164(value: string): (string, string)
  {
    ParseWith(Countries, value)
  }

  /** The table's codes are pairwise not prefixes of one another. */
  lemma CountriesPrefixFree()
    ensures PrefixFree(Countries)
  {
    var cs := Countries;
    forall i, j | 0 <= i < |cs| && 0 <= j < |cs| && i != j
      ensures !StartsWith(cs[i].code, cs[j].code)
    {
      var a := cs[i].code;
      var b := cs[j].code;
      assert DifferAt(a, b, 1) || DifferAt(a, b, 2) || DifferAt(a, b, 3) || |b| > |a|;
    }
  }

  /** Both strings have position m and differ there. */
  predicate DifferAt(a: string, b: string, m: nat)
  {
    m < |a| && m < |b| && a[m] != b[m]
  }

  /** Every code of the table is non-empty. */
  lemma CountriesNonEmpty()
    ensures NonEmptyCodes(Countries)
  {
  }

  /** Two prefixes of the same string: the shorter starts the longer. */
  lemma PrefixOfPrefix(s: string, a: string, b: string)
    requires StartsWith(s, a) && StartsWith(s, b) && |b| <= |a|
    ensures StartsWith(a, b)
  {
    assert a[..|b|] == s[..|a|][..|b|] == s[..|b|];
  }

  /**
   * The parsed code is a code of the table, or "+1" for the empty value and
   * for a value no code starts; the value is the code followed by the local
   * part, up to one leading '+' dropped when nothing matches.
   */
  lemma ParseWithFacts(table: seq<Country>, value: string)
    requires NonEmptyCodes(table)
    ensures var (code, local) := ParseWith(table, value);
      && ((exists k | 0 <= k < |table| :: table[k].code == code) || code == "+1")
      && (value == "" ==> code == "+1" && local == "")
      && ((exists k | 0 <= k < |table| :: StartsWith(value, table[k].code)) ==>
            code + local == value && exists k | 0 <= k < |table| :: table[k].code == code)
      && ((forall k | 0 <= k < |table| :: !StartsWith(value, table[k].code)) ==>
            code == "+1" && local == DropPlus(value))
  {
    if value != "" {
      var sorted := SortByCodeLength(table);
      SortByCodeLengthFacts(table);
      var f := FindIndex(sorted, (c: Country) => StartsWith(value, c.code));
      if f.Some? {
        var code := sorted[f.value].code;
        assert sorted[f.value] in multiset(table);
        assert value == code + value[|code|..];
      } else {
        forall k | 0 <= k < |table|
          ensures !StartsWith(value, table[k].code)
        {
          assert table[k] in multiset(sorted);
          var j :| 0 <= j < |sorted| && sorted[j] == table[k];
        }
      }
    }
  }

  /**
   * Over a prefix-free table, a value that a table code t starts parses to t
   * itself, so the returned code is the longest code that starts the value.
   */
  lemma ParseWithLongest(table: seq<Country>, value: string, k: nat)
    requires PrefixFree(table) && NonEmptyCodes(table)
    requires k < |table| && StartsWith(value, table[k].code)
    ensures ParseWith(table, value).0 == table[k].code
    ensures forall j | 0 <= j < |table| && StartsWith(value, table[j].code) ::
      |table[j].code| <= |ParseWith(table, value).0|
  {
    var t := table[k].code;
    var sorted := SortByCodeLength(table);
    SortByCodeLengthFacts(table);
    assert table[k] in multiset(sorted);
    var m :| 0 <= m < |sorted| && sorted[m] == table[k];
    var f := FindIndex(sorted, (c: Country) => StartsWith(value, c.code));
    assert f.Some?;
    var code := sorted[f.value].code;
    assert sorted[f.value] in multiset(table);
    var n :| 0 <= n < |table| && table[n] == sorted[f.value];
    if |t| <= |code| {
      PrefixOfPrefix(value, code, t);
    } else {
      PrefixOfPrefix(value, t, code);
    }
    forall j | 0 <= j < |table| && StartsWith(value, table[j].code)
      ensures |table[j].code| <= |code|
    {
      if j != k {
        if |table[j].code| <= |t| {
          PrefixOfPrefix(value, t, table[j].code);
        } else {
          PrefixOfPrefix(value, table[j].code, t);
        }
      }
    }
  }

  /** The code parseE164 returns is always one of the twelve table codes;
      the empty value gives ("+1", ""), and a value no code starts gives "+1"
      and the value without one leading '+'. */
  lemma ParseE164Facts(value: string)
    ensures var (code, local) := ParseE164(value);
      && IsTableCode(code)
      && (value == "" ==> code == "+1" && local == "")
      && ((exists k | 0 <= k < |Countries| :: StartsWith(value, Countries[k].code)) ==> code + local == value)
      && ((forall k | 0 <= k < |Countries| :: !StartsWith(value, Countries[k].code)) ==>
            code == "+1" && local == DropPlus(value))
  {
    CountriesNonEmpty();
    ParseWithFacts(Countries, value);
  }

  /** A value that a table code starts parses to that code, which is
      therefore the longest table code starting the value. */
  lemma ParseE164Longest(value: string, code: string)
    requires IsTableCode(code) && StartsWith(value, code)
    ensures ParseE164(value).0 == code
    ensures forall j | 0 <= j < |Countries| && StartsWith(value, Countries[j].code) ::
      |Countries[j].code| <= |ParseE164(value).0|
  {
    var k :| 0 <= k < |Countries| && Countries[k].code == code;
    CountriesPrefixFree();
    CountriesNonEmpty();
    ParseWithLongest(Countries, value, k);
  }

  /** Round trip: a table code followed by any local part parses back into
      exactly that code and local part. */
  lemma ParseE164RoundTrip(code: string, local: string)
    requires IsTableCode(code)
    ensures ParseE164(code + local) == (code, local)
  {
    var value := code + local;
    assert StartsWith(value, code);
    ParseE164Longest(value, code);
    ParseE164Facts(value);
    assert value[|code|..] == local;
  }

  /** `COUNTRIES.find(c => c.code === code) || COUNTRIES[0]`. */
  function CountryOf(code: string): Country
  {
    match FindIndex(Countries, (c: Country) => c.code == code)
    case Some(i) => Countries[i]
    case None => Countries[0]
  }

  /** A table code selects its own row; any other code falls back to the
      first row, "+1". */
  lemma CountryOfFacts(code: string)
    ensures forall k | 0 <= k < |Countries| && Countries[k].code == code :: CountryOf(code) == Countries[k]
    ensures !IsTableCode(code) ==> CountryOf(code) == Countries[0]
  {
    CountriesPrefixFree();
    PrefixFreeDistinct(Countries);
  }

  /** In a prefix-free table no two rows share a code. */
  lemma PrefixFreeDistinct(table: seq<Country>)
    requires PrefixFree(table)
    ensures forall i, j | 0 <= i < |table| && 0 <= j < |table| && i != j :: table[i].code != table[j].code
  {
    forall i, j | 0 <= i < |table| && 0 <= j < |table| && i != j
      ensures table[i].code != table[j].code
    {
      var a := table[i].code;
      assert a[..|a|] == a;
    }
  }

  /** The value the field reports: the code and the digits of the local
      number, or "" when the local number has no digit. */
  function EmitValue(code: string, local: string): string
  {
    var digits := Digits(local);
    if digits != "" then code + digits else ""
  }

  /** The state of the field: the selected code and the local number typed. */
  datatype PhoneState = PhoneState(countryCode: string, localNumber: string)

  /** The state the field starts in for a given value. */
  function Init(value: string): PhoneState
  {
    var (code, local) := ParseE164(value);
    PhoneState(code, local)
  }

  /** `handleLocalChange(raw)`: the digits of the input, cut to the selected
      country's maximum length; the new state and the value emitted. */
  function HandleLocalChange(st: PhoneState, raw: string): (PhoneState, string)
  {
    var all := Digits(raw);
    var maxLen := CountryOf(st.countryCode).maxLen;
    var digits := if |all| <= maxLen then all else all[..maxLen];
    (st.(localNumber := digits), EmitValue(st.countryCode, digits))
  }

  /** `handleSelectCountry(code)`: the new code with the local number kept. */
  function HandleSelectCountry(st: PhoneState, code: string): (PhoneState, string)
  {
    (st.(countryCode := code), EmitValue(code, st.localNumber))
  }

  /** The effect run when the value from outside changes: each part is taken
      from the parsed value when it differs from the state's. */
  function Resync(st: PhoneState, value: string): PhoneState
  {
    var (code, local) := ParseE164(value);
    PhoneState(
      if code != st.countryCode then code else st.countryCode,
      if local != Digits(st.localNumber) then local else st.localNumber)
  }

  /**
   * The emitted value is "" exactly when the local number has no digit, and
   * otherwise the code followed by the local number's digits only, in order.
   */
  lemma EmitValueFacts(code: string, local: string)
    ensures EmitValue(code, local) == "" <==> forall k | 0 <= k < |local| :: !IsDigit(local[k])
    ensures Digits(local) != "" ==>
      && StartsWith(EmitValue(code, local), code)
      && EmitValue(code, local)[|code|..] == Digits(local)
      && AllDigits(EmitValue(code, local)[|code|..])
  {
    var e := EmitValue(code, local);
    if Digits(local) != "" {
      assert e == code + Digits(local);
      assert e[..|code|] == code;
    }
  }

  /**
   * Typing keeps only digits, at most the selected country's maximum (the
   * first row's when the code is not in the table), and the first ones
   * typed; it keeps the code, and the value emitted is the code and those
   * digits, or "" when there are none.
   */
  lemma HandleLocalChangeFacts(st: PhoneState, raw: string)
    ensures var (st', out) := HandleLocalChange(st, raw);
      var maxLen := CountryOf(st.countryCode).maxLen;
      && st'.countryCode == st.countryCode
      && AllDigits(st'.localNumber)
      && |st'.localNumber| == (if |Digits(raw)| <= maxLen then |Digits(raw)| else maxLen)
      && Digits(raw)[..|st'.localNumber|] == st'.localNumber
      && (out == "" <==> st'.localNumber == "")
      && (out != "" ==> out == st.countryCode + st'.localNumber)
  {
    KeepFirstDigits(raw, CountryOf(st.countryCode).maxLen);
  }

  /** The first `maxLen` digits of the input are all digits, its first
      digits, and their own digit filter. */
  lemma KeepFirstDigits(raw: string, maxLen: nat)
    ensures var all := Digits(raw);
      var digits := if |all| <= maxLen then all else all[..maxLen];
      && AllDigits(digits)
      && |digits| == (if |all| <= maxLen then |all| else maxLen)
      && all[..|digits|] == digits
      && Digits(digits) == digits
  {
    var all := Digits(raw);
    var digits := if |all| <= maxLen then all else all[..maxLen];
    assert AllDigits(digits);
  }

  /** Under "+1" (US / Canada) at most ten digits are kept: the first ten
      of those typed. */
  lemma UsNumberTruncated(st: PhoneState, raw: string)
    requires st.countryCode == "+1"
    ensures var local := HandleLocalChange(st, raw).0.localNumber;
      local == if |Digits(raw)| <= 10 then Digits(raw) else Digits(raw)[..10]
  {
    CountryOfFacts("+1");
    assert Countries[0].code == "+1";
  }

  /** Picking a country keeps the local number and emits the new code with
      its digits, or "" when there are none. */
  lemma HandleSelectCountryFacts(st: PhoneState, code: string)
    ensures var (st', out) := HandleSelectCountry(st, code);
      && st' == PhoneState(code, st.localNumber)
      && (out == "" <==> Digits(st.localNumber) == "")
      && (out != "" ==> out == code + Digits(st.localNumber))
  {
  }

  /**
   * The re-sync after an emitted value changes nothing: when the state's
   * code is a table code and the local number is all digits and not empty,
   * parsing the emitted value gives back the same code and digits.
   */
  lemma ResyncAfterEmit(st: PhoneState)
    requires IsTableCode(st.countryCode)
    requires AllDigits(st.localNumber) && st.localNumber != ""
    ensures Resync(st, EmitValue(st.countryCode, st.localNumber)) == st
  {
    assert EmitValue(st.countryCode, st.localNumber) == st.countryCode + st.localNumber;
    ParseE164RoundTrip(st.countryCode, st.localNumber);
  }

  /** Typing into the field and then re-syncing from the emitted value
      leaves the state as typing left it, when a digit was typed. */
  lemma TypingIsStable(st: PhoneState, raw: string)
    requires IsTableCode(st.countryCode)
    requires HandleLocalChange(st, raw).1 != ""
    ensures var (st', out) := HandleLocalChange(st, raw);
      Resync(st', out) == st'
  {
    var (st', out) := HandleLocalChange(st, raw);
    ResyncAfterEmit(st');
  }

  /** Clearing the value from outside selects "+1" and leaves a local number
      without digits. */
  lemma ResyncCleared(st: PhoneState)
    ensures Resync(st, "").countryCode == "+1"
    ensures Digits(Resync(st, "").localNumber) == ""
  {
  }

  /** The field starts on a table code, and on the code and local part of a
      value made of a table code and a local number. */
  lemma InitFacts(value: string)
    ensures IsTableCode(Init(value).countryCode)
    ensures forall code, local | IsTableCode(code) && value == code + local ::
      Init(value) == PhoneState(code, local)
  {
    ParseE164Facts(value);
    forall code, local | IsTableCode(code) && value == code + local
      ensures Init(value) == PhoneState(code, local)
    {
      ParseE164RoundTrip(code, local);
    }
  }
}
