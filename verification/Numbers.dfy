/** Phone number to chat id normalisation, for ASCII input. */
module Numbers {
  import opened Wrappers

  const WA_SUFFIXES := ["@c.us", "@g.us", "@s.whatsapp.net", "@lid", "@newsletter"]
  const MIN_DIGITS := 8
  const MAX_DIGITS := 15

  datatype InvalidNumber = Empty | NoLocalPart | NoDigits | TooFewDigits | TooManyDigits

  // ---------------------------------------------------------------- ASCII text

  predicate IsDigit(c: char) {
    '0' <= c <= '9'
  }

  predicate AllDigits(s: string) {
    forall c :: c in s ==> IsDigit(c)
  }

  /** What `str.strip` removes, within ASCII. */
  predicate IsSpace(c: char) {
    9 <= c as int <= 13 || 28 <= c as int <= 32
  }

  function StripLeft(s: string): string {
    if s != "" && IsSpace(s[0]) then StripLeft(s[1..]) else s
  }

  function StripRight(s: string): string {
    if s != "" && IsSpace(s[|s| - 1]) then StripRight(s[..|s| - 1]) else s
  }

  function Strip(s: string): (t: string)
    ensures t != "" ==> !IsSpace(t[0]) && !IsSpace(t[|t| - 1])
  {
    StripEnds(s);
    StripEnds(StripLeft(s));
    StripRight(StripLeft(s))
  }

  lemma StripEnds(s: string)
    ensures StripLeft(s) != "" ==> !IsSpace(StripLeft(s)[0])
    ensures StripRight(s) != "" ==> !IsSpace(StripRight(s)[|StripRight(s)| - 1]) && StripRight(s)[0] == s[0]
    ensures |StripRight(s)| <= |s|
  {
  }

  function Lower(c: char): char {
    if 'A' <= c <= 'Z' then (c as int + 32) as char else c
  }

  function LowerAll(s: string): (t: string)
    ensures |t| == |s|
  {
    seq(|s|, i requires 0 <= i < |s| => Lower(s[i]))
  }

  predicate EndsWith(s: string, suffix: string) {
    |suffix| <= |s| && s[|s| - |suffix|..] == suffix
  }

  function Digits(s: string): (d: string)
    ensures AllDigits(d)
  {
    if s == "" then "" else (if IsDigit(s[0]) then [s[0]] else "") + Digits(s[1..])
  }

  function StripZeros(d: string): string {
    if d != "" && d[0] == '0' then StripZeros(d[1..]) else d
  }

  // ---------------------------------------------------------------- to_chat_id

  /** The first known suffix the lowered value ends with. */
  function SuffixOf(lowered: string, suffixes: seq<string>): (r: Option<string>)
    ensures r.Some? ==> r.value in suffixes && EndsWith(lowered, r.value)
    ensures r.None? ==> forall x :: x in suffixes ==> !EndsWith(lowered, x)
  {
    if suffixes == [] then None
    else if EndsWith(lowered, suffixes[0]) then Some(suffixes[0])
    else SuffixOf(lowered, suffixes[1..])
  }

  predicate DialledInternational(digits: string) {
    "00" <= digits
  }

  /** The full international number behind a run of dialled digits. */
  function International(digits: string, countryCode: string): string {
    if DialledInternational(digits) then digits[2..]
    else if countryCode == "" then digits
    else if countryCode <= digits && |digits| >= 10 then digits
    else countryCode + StripZeros(digits)
  }

  function ChatId(raw: string, countryCode: string): Result<string, InvalidNumber> {
    var value := Strip(raw);
    if value == "" then Err(Empty)
    else
      match SuffixOf(LowerAll(value), WA_SUFFIXES)
      case Some(suffix) =>
        var local := value[..|value| - |suffix|];
        if local == "" then Err(NoLocalPart) else Ok(local + suffix)
      case None =>
        var digits := Digits(value);
        if digits == "" then Err(NoDigits)
        else
          var number := International(digits, countryCode);
          if |number| < MIN_DIGITS then Err(TooFewDigits)
          else if |number| > MAX_DIGITS then Err(TooManyDigits)
          else Ok(number + "@c.us")
  }

  method ToChatId(raw: string, countryCode: string) returns (r: Result<string, InvalidNumber>)
    ensures r == ChatId(raw, countryCode)
  {
    var value := Strip(raw);
    if value == "" {
      return Err(Empty);
    }
    var lowered := LowerAll(value);
    assert WA_SUFFIXES[0..] == WA_SUFFIXES;
    for i := 0 to |WA_SUFFIXES|
      invariant SuffixOf(lowered, WA_SUFFIXES) == SuffixOf(lowered, WA_SUFFIXES[i..])
    {
      var suffix := WA_SUFFIXES[i];
      assert WA_SUFFIXES[i..][0] == suffix && WA_SUFFIXES[i..][1..] == WA_SUFFIXES[i + 1..];
      if EndsWith(lowered, suffix) {
        var local := value[..|value| - |suffix|];
        if local == "" {
          return Err(NoLocalPart);
        }
        return Ok(local + suffix);
      }
    }
    var digits := Digits(value);
    if digits == "" {
      return Err(NoDigits);
    }
    var dialledInternational := "00" <= digits;
    if dialledInternational {
      digits := digits[2..];
    }
    if countryCode != "" && !dialledInternational {
      var alreadyInternational := countryCode <= digits && |digits| >= 10;
      if !alreadyInternational {
        digits := countryCode + StripZeros(digits);
      }
    }
    if |digits| < MIN_DIGITS {
      return Err(TooFewDigits);
    }
    if |digits| > MAX_DIGITS {
      return Err(TooManyDigits);
    }
    return Ok(digits + "@c.us");
  }

  // ---------------------------------------------------------------- phone_of

  function BeforeAt(s: string): (local: string)
    ensures '@' !in local
    ensures '@' in s ==> local + "@" <= s
  {
    if s == "" || s[0] == '@' then "" else [s[0]] + BeforeAt(s[1..])
  }

  function PhoneOf(chatId: string): Option<string> {
    if '@' !in chatId then None
    else
      var local := BeforeAt(chatId);
      var domain := chatId[|local| + 1..];
      if LowerAll(domain) != "c.us" && LowerAll(domain) != "s.whatsapp.net" then None
      else if local != "" && AllDigits(local) then Some(local)
      else None
  }

  // ---------------------------------------------------------------- properties

  lemma StripIsIdentity(s: string)
    requires s != "" && !IsSpace(s[0]) && !IsSpace(s[|s| - 1])
    ensures Strip(s) == s
  {
  }

  lemma LowerConcat(a: string, b: string)
    ensures LowerAll(a + b) == LowerAll(a) + LowerAll(b)
  {
  }

  lemma SuffixesAreLower(suffix: string)
    requires suffix in WA_SUFFIXES
    ensures LowerAll(suffix) == suffix && suffix != "" && !IsSpace(suffix[|suffix| - 1])
  {
  }

  lemma {:induction false} StripZerosKeepsDigits(d: string)
    requires AllDigits(d)
    ensures AllDigits(StripZeros(d))
  {
    if d != "" {
      StripZerosKeepsDigits(d[1..]);
    }
  }

  lemma InternationalIsDigits(digits: string, countryCode: string)
    requires AllDigits(digits) && AllDigits(countryCode)
    ensures AllDigits(International(digits, countryCode))
    ensures !DialledInternational(digits) ==> countryCode <= International(digits, countryCode)
  {
    StripZerosKeepsDigits(digits);
  }

  /** The two ways a value becomes an id. */
  lemma IdShape(raw: string, countryCode: string)
    requires ChatId(raw, countryCode).Ok?
    ensures var value := Strip(raw);
            var id := ChatId(raw, countryCode).value;
            match SuffixOf(LowerAll(value), WA_SUFFIXES)
            case Some(suffix) => |suffix| < |value| && id == value[..|value| - |suffix|] + suffix
            case None =>
              var number := International(Digits(value), countryCode);
              MIN_DIGITS <= |number| <= MAX_DIGITS && id == number + "@c.us"
  {
  }

  /** Normalising a normalised id changes nothing, even under another country code. */
  lemma ChatIdIsIdempotent(raw: string, countryCode: string, other: string)
    requires AllDigits(countryCode) && ChatId(raw, countryCode).Ok?
    ensures ChatId(ChatId(raw, countryCode).value, other) == ChatId(raw, countryCode)
  {
    IdShape(raw, countryCode);
    IdIsStable(ChatId(raw, countryCode).value, Strip(raw), countryCode, other);
  }

  lemma IdIsStable(id: string, value: string, countryCode: string, other: string)
    requires AllDigits(countryCode) && (value != "" ==> !IsSpace(value[0]))
    requires match SuffixOf(LowerAll(value), WA_SUFFIXES)
             case Some(suffix) => |suffix| < |value| && id == value[..|value| - |suffix|] + suffix
             case None =>
               var number := International(Digits(value), countryCode);
               MIN_DIGITS <= |number| && id == number + "@c.us"
    ensures ChatId(id, other) == Ok(id)
  {
    var found := SuffixOf(LowerAll(value), WA_SUFFIXES);
    match found
    case Some(suffix) =>
      JidIsStable(value, suffix, other);
    case None =>
      InternationalIsDigits(Digits(value), countryCode);
      NumberIdIsStable(International(Digits(value), countryCode), other);
  }

  /** A jid keeps its local part, and its suffix in lower case. */
  lemma JidIsStable(value: string, suffix: string, other: string)
    requires value != "" && !IsSpace(value[0]) && |suffix| < |value|
    requires SuffixOf(LowerAll(value), WA_SUFFIXES) == Some(suffix)
    ensures var id := value[..|value| - |suffix|] + suffix; ChatId(id, other) == Ok(id)
  {
    var local, ending := value[..|value| - |suffix|], value[|value| - |suffix|..];
    var id := local + suffix;
    assert value == local + ending;
    SuffixesAreLower(suffix);
    LowerConcat(local, ending);
    LowerConcat(local, suffix);
    assert LowerAll(ending) == suffix;
    assert LowerAll(id) == LowerAll(value);
    assert id[0] == value[0];
    StripIsIdentity(id);
    assert id[..|id| - |suffix|] == local;
  }

  lemma NumberIdIsStable(number: string, other: string)
    requires number != "" && AllDigits(number)
    ensures ChatId(number + "@c.us", other) == Ok(number + "@c.us")
  {
    var id := number + "@c.us";
    assert id[0] in number && IsDigit(id[0]);
    StripIsIdentity(id);
    SuffixesAreLower("@c.us");
    LowerConcat(number, "@c.us");
    assert EndsWith(LowerAll(id), "@c.us");
    assert WA_SUFFIXES[0] == "@c.us";
    assert id[..|id| - 5] == number;
  }

  lemma {:induction false} BeforeFirstAt(local: string, rest: string)
    requires '@' !in local
    ensures BeforeAt(local + "@" + rest) == local
  {
    if local == "" {
      assert local + "@" + rest == "@" + rest;
    } else {
      assert (local + "@" + rest)[1..] == local[1..] + "@" + rest;
      BeforeFirstAt(local[1..], rest);
    }
  }

  /**
   For input that is not a jid, `phone_of` recovers the number from the id: 8 to 15 digits, led by the
   default country code unless the number was dialled with 00, and then exactly what followed the 00.
   */
  lemma PhoneOfRecovers(raw: string, countryCode: string)
    requires AllDigits(countryCode) && ChatId(raw, countryCode).Ok?
    requires SuffixOf(LowerAll(Strip(raw)), WA_SUFFIXES).None?
    ensures var dialled := Digits(Strip(raw));
            var phone := PhoneOf(ChatId(raw, countryCode).value);
            && phone.Some? && AllDigits(phone.value) && MIN_DIGITS <= |phone.value| <= MAX_DIGITS
            && ChatId(raw, countryCode).value == phone.value + "@c.us"
            && (if DialledInternational(dialled) then phone.value == dialled[2..] else countryCode <= phone.value)
  {
    var dialled := Digits(Strip(raw));
    var number := International(dialled, countryCode);
    InternationalIsDigits(dialled, countryCode);
    assert '@' !in number;
    assert number + "@c.us" == number + "@" + "c.us";
    BeforeFirstAt(number, "c.us");
    assert (number + "@c.us")[|number| + 1..] == "c.us" && LowerAll("c.us") == "c.us";
    assert (number + "@c.us")[|number|] == '@';
  }

  // ---------------------------------------------------------------- what the pieces of a number are

  /** What the input was trimmed of is white space, on either side. */
  lemma StripCuts(s: string) returns (left: string, right: string)
    ensures s == left + Strip(s) + right
    ensures forall c :: c in left + right ==> c as int in {9, 10, 11, 12, 13, 28, 29, 30, 31, 32}
    ensures Strip(s) != "" ==>
              && Strip(s)[0] as int !in {9, 10, 11, 12, 13, 28, 29, 30, 31, 32}
              && Strip(s)[|Strip(s)| - 1] as int !in {9, 10, 11, 12, 13, 28, 29, 30, 31, 32}
  {
    var rest;
    left, rest := LeftCut(s);
    right := RightCut(rest);
  }

  lemma {:induction false} LeftCut(s: string) returns (left: string, rest: string)
    ensures s == left + rest && rest == StripLeft(s)
    ensures forall c :: c in left ==> c as int in {9, 10, 11, 12, 13, 28, 29, 30, 31, 32}
  {
    left, rest := "", s;
    if s != "" && IsSpace(s[0]) {
      var more;
      more, rest := LeftCut(s[1..]);
      left := [s[0]] + more;
    }
  }

  lemma {:induction false} RightCut(s: string) returns (right: string)
    ensures s == StripRight(s) + right
    ensures forall c :: c in right ==> c as int in {9, 10, 11, 12, 13, 28, 29, 30, 31, 32}
  {
    right := "";
    if s != "" && IsSpace(s[|s| - 1]) {
      var more := RightCut(s[..|s| - 1]);
      right := more + [s[|s| - 1]];
    }
  }

  lemma TheDigits(c: char)
    ensures IsDigit(c) <==> c in "0123456789"
  {
    if IsDigit(c) {
      assert c == "0123456789"[c as int - '0' as int];
    }
  }

  /** Every decimal digit is kept, in its place, and every other character is dropped. */
  lemma {:induction false} DigitsOneByOne(a: string, c: char, b: string)
    ensures Digits(a + [c] + b) == Digits(a) + (if c in "0123456789" then [c] else "") + Digits(b)
  {
    var s := a + [c] + b;
    TheDigits(c);
    if a == "" {
      assert s[0] == c && s[1..] == b;
    } else {
      assert s[1..] == a[1..] + [c] + b;
      DigitsOneByOne(a[1..], c, b);
    }
  }

  function Zeros(n: nat): string {
    seq(n, i => '0')
  }

  lemma {:induction false} OnlyLeadingZerosGo(d: string) returns (k: nat)
    ensures d == Zeros(k) + StripZeros(d)
    ensures StripZeros(d) != "" ==> StripZeros(d)[0] != '0'
  {
    k := 0;
    if d != "" && d[0] == '0' {
      k := OnlyLeadingZerosGo(d[1..]);
      k := k + 1;
    }
  }

  /**
   From the dialled digits to the number: what follows a 00; else the digits themselves when there is no
   default code, or they start with it and are ten or more; else the code and the digits less their
   leading zeros.
   */
  lemma NumberFromDialled(dialled: string, countryCode: string, rest: string) returns (k: nat)
    ensures dialled == "00" + rest ==> International(dialled, countryCode) == rest
    ensures !("00" <= dialled) && countryCode == "" ==> International(dialled, countryCode) == dialled
    ensures !("00" <= dialled) && countryCode <= dialled && |dialled| >= 10 ==>
              International(dialled, countryCode) == dialled
    ensures !("00" <= dialled) && countryCode != "" && !(countryCode <= dialled && |dialled| >= 10) ==>
              && k <= |dialled| && dialled[..k] == Zeros(k) && (k < |dialled| ==> dialled[k] != '0')
              && International(dialled, countryCode) == countryCode + dialled[k..]
  {
    k := OnlyLeadingZerosGo(dialled);
    assert dialled == "00" + rest ==> dialled[2..] == rest;
  }

  /** When and why an input is refused. */
  lemma Refusals(raw: string, countryCode: string)
    ensures var value, r := Strip(raw), ChatId(raw, countryCode);
            && (r == Err(Empty) <==> value == "")
            && (value != "" ==>
                  match SuffixOf(LowerAll(value), WA_SUFFIXES)
                  case Some(suffix) => r.Err? ==> r == Err(NoLocalPart) && |value| == |suffix|
                  case None =>
                    var number := International(Digits(value), countryCode);
                    && (r == Err(NoDigits) <==> Digits(value) == "")
                    && (r == Err(TooFewDigits) <==> Digits(value) != "" && |number| < 8)
                    && (r == Err(TooManyDigits) <==> Digits(value) != "" && |number| > 15)
                    && (r.Ok? <==> Digits(value) != "" && 8 <= |number| <= 15))
  {
  }

  // ---------------------------------------------------------------- jids

  /** `t` is `s`, save that any of its letters may be a capital. */
  predicate InAnyCase(t: string, s: string) {
    && |t| == |s|
    && forall i :: 0 <= i < |s| ==>
         t[i] == s[i] || ('a' <= s[i] <= 'z' && t[i] as int == s[i] as int - 32)
  }

  /** A jid is taken as it is, whatever the case of its suffix, which becomes lower case. */
  lemma JidInAnyCase(local: string, ending: string, suffix: string, countryCode: string)
    requires local != "" && !IsSpace(local[0])
    requires suffix in ["@c.us", "@g.us", "@s.whatsapp.net", "@lid", "@newsletter"] && InAnyCase(ending, suffix)
    ensures ChatId(local + ending, countryCode) == Ok(local + suffix)
  {
    var value := local + ending;
    JidSuffix(local, ending, suffix);
    assert value[0] == local[0] && value[|value| - 1] == ending[|ending| - 1];
    JidId(value, suffix, countryCode);
    assert value[..|value| - |suffix|] == local;
  }

  lemma JidSuffix(local: string, ending: string, suffix: string)
    requires suffix in WA_SUFFIXES && InAnyCase(ending, suffix)
    ensures SuffixOf(LowerAll(local + ending), WA_SUFFIXES) == Some(suffix)
    ensures ending != "" && !IsSpace(ending[|ending| - 1])
  {
    var lowered := LowerAll(local + ending);
    SuffixesAreLower(suffix);
    assert LowerAll(ending) == suffix;
    LowerConcat(local, ending);
    assert EndsWith(lowered, suffix);
    SuffixIsUnique(lowered, SuffixOf(lowered, WA_SUFFIXES).value, suffix);
  }

  lemma JidId(value: string, suffix: string, countryCode: string)
    requires value != "" && !IsSpace(value[0]) && !IsSpace(value[|value| - 1]) && |suffix| < |value|
    requires SuffixOf(LowerAll(value), WA_SUFFIXES) == Some(suffix)
    ensures ChatId(value, countryCode) == Ok(value[..|value| - |suffix|] + suffix)
  {
    StripIsIdentity(value);
  }

  /** No known suffix is the end of another one. */
  lemma SuffixIsUnique(s: string, x: string, y: string)
    requires x in WA_SUFFIXES && y in WA_SUFFIXES && EndsWith(s, x) && EndsWith(s, y)
    ensures x == y
  {
    assert s[|s| - 1] == x[|x| - 1] == y[|y| - 1];
    assert s[|s| - 4] == x[|x| - 4] == y[|y| - 4];
  }

  /** Only a whole run of digits before c.us or s.whatsapp.net, in any case, is a phone number. */
  lemma PhoneOfJid(local: string, domain: string)
    requires '@' !in local
    ensures PhoneOf(local + "@" + domain) ==
            if (InAnyCase(domain, "c.us") || InAnyCase(domain, "s.whatsapp.net"))
               && local != "" && forall c :: c in local ==> c in "0123456789"
            then Some(local) else None
  {
    var id := local + "@" + domain;
    BeforeFirstAt(local, domain);
    assert id[|local|] == '@' && id[|local| + 1..] == domain;
    LowersTo(domain, "c.us");
    LowersTo(domain, "s.whatsapp.net");
    forall c ensures c in "0123456789" <==> IsDigit(c) {
      TheDigits(c);
    }
  }

  lemma LowersTo(t: string, s: string)
    requires forall c :: c in s ==> !('A' <= c <= 'Z')
    ensures LowerAll(t) == s <==> InAnyCase(t, s)
  {
    if LowerAll(t) == s {
      forall i | 0 <= i < |s| ensures t[i] == s[i] || ('a' <= s[i] <= 'z' && t[i] as int == s[i] as int - 32) {
        assert LowerAll(t)[i] == s[i];
      }
    }
    if InAnyCase(t, s) {
      forall i | 0 <= i < |s| ensures LowerAll(t)[i] == s[i] {
        assert s[i] in s;
      }
    }
  }

  /** And nothing without an '@' is one. */
  lemma PhoneOfNeedsAt(s: string)
    requires '@' !in s
    ensures PhoneOf(s) == None
  {
  }
}
