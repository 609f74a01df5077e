/** The rules the register route checks on the request body before the
    controller runs (express-validator chains), as predicates on the parsed
    JSON body, plus the sanitisers in those chains that rewrite the body. */
module Validation {
  import opened Wrappers
  import opened Json

  // ---------------------------------------------------------------------
  // Strings as the validator library sees them
  // ---------------------------------------------------------------------

  /** JavaScript's white space and line terminators (the `\s` class, which
      `trim` removes). */
  const SpaceChars: set<char> := {
    ' ', '\t', '\n', '\U{000B}', '\U{000C}', '\r', '\U{00A0}', '\U{1680}',
    '\U{2000}', '\U{2001}', '\U{2002}', '\U{2003}', '\U{2004}', '\U{2005}',
    '\U{2006}', '\U{2007}', '\U{2008}', '\U{2009}', '\U{200A}',
    '\U{2028}', '\U{2029}', '\U{202F}', '\U{205F}', '\U{3000}', '\U{FEFF}'}

  predicate IsSpace(c: char) {
    c in SpaceChars
  }

  /** The number of white-space characters `s` starts with. */
  function LeadingSpace(s: string): (n: nat)
    ensures n <= |s|
    ensures forall k :: 0 <= k < n ==> IsSpace(s[k])
    ensures n < |s| ==> !IsSpace(s[n])
  {
    if s != [] && IsSpace(s[0]) then 1 + LeadingSpace(s[1..]) else 0
  }

  /** The length of `s` without the white space it ends with. */
  function KeptLength(s: string): (n: nat)
    ensures n <= |s|
    ensures forall k :: n <= k < |s| ==> IsSpace(s[k])
    ensures n > 0 ==> !IsSpace(s[n - 1])
  {
    if s != [] && IsSpace(s[|s| - 1]) then KeptLength(s[..|s| - 1]) else |s|
  }

  /** `s` with its leading white space removed. */
  function TrimStart(s: string): string {
    s[LeadingSpace(s)..]
  }

  /** `s` with its trailing white space removed. */
  function TrimEnd(s: string): string {
    s[..KeptLength(s)]
  }

  /** JavaScript's `trim`: the slice of `s` left once the white space at
      both ends is removed. */
  function Trim(s: string): (r: string)
    ensures r != [] ==> !IsSpace(r[0]) && !IsSpace(r[|r| - 1])
    ensures exists i, j :: 0 <= i <= j <= |s| && r == s[i..j] &&
              (forall k :: 0 <= k < i ==> IsSpace(s[k])) && (forall k :: j <= k < |s| ==> IsSpace(s[k]))
  {
    var n := LeadingSpace(s);
    var m := KeptLength(s[n..]);
    assert s[n..][..m] == s[n..n + m];
    assert forall k :: n + m <= k < |s| ==> s[k] == s[n..][k - n];
    TrimEnd(TrimStart(s))
  }

  /** A string that neither starts nor ends with white space is its own trim. */
  lemma TrimOfTrimmed(s: string)
    requires s != [] ==> !IsSpace(s[0]) && !IsSpace(s[|s| - 1])
    ensures Trim(s) == s
  {
  }

  /** Trimming a trimmed string changes nothing. */
  lemma TrimIdempotent(s: string)
    ensures Trim(Trim(s)) == Trim(s)
  {
    TrimOfTrimmed(Trim(s));
  }

  /** Leading white space does not change the trimmed string. */
  lemma TrimIgnoresLeadingSpace(pad: string, s: string)
    requires forall k :: 0 <= k < |pad| ==> IsSpace(pad[k])
    ensures Trim(pad + s) == Trim(s)
  {
    LeadingSpaceOfPadded(pad, s);
    assert TrimStart(pad + s) == TrimStart(s);
  }

  lemma {:induction false} LeadingSpaceOfPadded(pad: string, s: string)
    requires forall k :: 0 <= k < |pad| ==> IsSpace(pad[k])
    ensures LeadingSpace(pad + s) == |pad| + LeadingSpace(s)
  {
    if pad != [] {
      var t := pad + s;
      assert t[0] == pad[0] && IsSpace(pad[0]);
      assert t[1..] == pad[1..] + s;
      LeadingSpaceOfPadded(pad[1..], s);
    } else {
      assert pad + s == s;
    }
  }

  /** The validator library's `toString`, applied before every standard
      validator and sanitiser: `undefined` and `null` become "", booleans and
      numbers their JavaScript spelling, an object "[object Object]". An
      array is checked item by item by the library; that is not modelled
      (None). */
  function Stringify(v: Option<Json>): (r: Option<string>)
    ensures v.None? || v == Some(JNull) ==> r == Some("")
    ensures v.Some? && v.value.JStr? ==> r == Some(v.value.s)
    ensures v.Some? && v.value.JNum? ==> r == Some(IntToString(v.value.n))
    ensures v == Some(JBool(true)) ==> r == Some("true")
    ensures v == Some(JBool(false)) ==> r == Some("false")
    ensures v.Some? && v.value.JObj? ==> r == Some("[object Object]")
    ensures r.None? <==> v.Some? && v.value.JArr?
  {
    match v
    case None => Some("")
    case Some(JNull) => Some("")
    case Some(JBool(b)) => Some(if b then "true" else "false")
    case Some(JNum(n)) => Some(IntToString(n))
    case Some(JStr(s)) => Some(s)
    case Some(JArr(_)) => None
    case Some(JObj(_)) => Some("[object Object]")
  }

  /** The length `isLength` measures: code points, not counting the
      variation selectors U+FE0E and U+FE0F. */
  function MeasuredLength(s: string): (n: nat)
    ensures n <= |s|
  {
    if s == [] then 0
    else MeasuredLength(s[1..]) + (if s[0] == '\U{FE0E}' || s[0] == '\U{FE0F}' then 0 else 1)
  }

  // ---------------------------------------------------------------------
  // username
  // ---------------------------------------------------------------------

  /** `[a-zA-Z0-9_]` */
  predicate IsWordChar(c: char) {
    'a' <= c <= 'z' || 'A' <= c <= 'Z' || '0' <= c <= '9' || c == '_'
  }

  /** The rules on an already-trimmed username: not empty, 3 to 30
      characters, letters, digits and underscores only. */
  predicate UsernameOk(t: string) {
    t != [] && 3 <= MeasuredLength(t) <= 30 && forall i :: 0 <= i < |t| ==> IsWordChar(t[i])
  }

  /** The username chain: the value is coerced to a string and trimmed, then
      must be non-empty, 3 to 30 long and made of word characters only. */
  predicate ValidUsername(v: Option<Json>)
    ensures ValidUsername(v) ==> v.Some? && !v.value.JNull? && !v.value.JArr?
  {
    Stringify(v).Some? && UsernameOk(Trim(Stringify(v).value))
  }

  /** The username the controller receives: the trim sanitiser rewrites it. */
  function SanitizedUsername(v: Option<Json>): (r: string)
    requires ValidUsername(v)
    ensures r == Trim(Stringify(v).value)
    ensures 3 <= |r| <= 30 && forall i :: 0 <= i < |r| ==> IsWordChar(r[i])
  {
    var t := Trim(Stringify(v).value);
    WordCharsMeasured(t);
    t
  }

  /** A username passes exactly when its trimmed form is 3 to 30 word
      characters; surrounding white space is ignored. */
  lemma UsernameCharacterisation(s: string, pad: string)
    requires forall k :: 0 <= k < |pad| ==> IsSpace(pad[k])
    ensures ValidUsername(Some(JStr(pad + s))) <==>
              3 <= |Trim(s)| <= 30 && forall i :: 0 <= i < |Trim(s)| ==> IsWordChar(Trim(s)[i])
  {
    TrimIgnoresLeadingSpace(pad, s);
    var t := Trim(s);
    if forall i :: 0 <= i < |t| ==> IsWordChar(t[i]) {
      WordCharsMeasured(t);
    }
  }

  /** "john.doe" is refused: the dot is not a word character. */
  lemma UsernameRejectsDot()
    ensures !ValidUsername(Some(JStr("john.doe")))
  {
    var bad := "john.doe";
    assert Stringify(Some(JStr(bad))) == Some(bad);
    assert !IsSpace(bad[0]) && !IsSpace(bad[7]);
    TrimOfTrimmed(bad);
    assert !IsWordChar(bad[4]);
    assert !UsernameOk(bad);
  }

  /** A string of 3 to 30 word characters is accepted as it is. */
  lemma WordUsername(s: string)
    requires 3 <= |s| <= 30 && forall i :: 0 <= i < |s| ==> IsWordChar(s[i])
    ensures Trim(s) == s && ValidUsername(Some(JStr(s)))
  {
    assert Stringify(Some(JStr(s))) == Some(s);
    assert !IsSpace(s[0]) && !IsSpace(s[|s| - 1]);
    TrimOfTrimmed(s);
    WordCharsMeasured(s);
  }

  /** "johndoe" is accepted. */
  lemma UsernameAcceptsPlain()
    ensures ValidUsername(Some(JStr("johndoe")))
  {
    var good := "johndoe";
    assert forall i :: 0 <= i < |good| ==> IsWordChar(good[i]);
    WordUsername(good);
  }

  /** A missing username reads as "" and is refused. */
  lemma UsernameRequired()
    ensures !ValidUsername(None)
  {
    assert Trim("") == "";
  }

  /** Without variation selectors, `isLength` counts every character. */
  lemma {:induction false} NoSelectorsMeasured(s: string)
    requires forall i :: 0 <= i < |s| ==> s[i] != '\U{FE0E}' && s[i] != '\U{FE0F}'
    ensures MeasuredLength(s) == |s|
  {
    if s != [] {
      NoSelectorsMeasured(s[1..]);
    }
  }

  /** Word characters are counted one each by `isLength`. */
  lemma WordCharsMeasured(s: string)
    requires forall i :: 0 <= i < |s| ==> IsWordChar(s[i])
    ensures MeasuredLength(s) == |s|
  {
    NoSelectorsMeasured(s);
  }

  /** A non-negative number whose spelling has 3 to 30 digits passes. */
  lemma NumberUsername(n: int)
    requires n >= 0 && 3 <= |IntToString(n)| <= 30
    ensures ValidUsername(Some(JNum(n)))
  {
    var s := IntToString(n);
    assert Stringify(Some(JNum(n))) == Some(s);
    assert forall i :: 0 <= i < |s| ==> IsWordChar(s[i]);
    WordUsername(s);
  }

  /** A number is spelled out before the rules apply, so 12345 passes. */
  lemma UsernameNumberCoerced()
    ensures ValidUsername(Some(JNum(12345)))
  {
    assert |Digits(12)| == |Digits(1)| + 1;
    assert |Digits(1234)| == |Digits(123)| + 1;
    assert |Digits(12345)| == 5;
    NumberUsername(12345);
  }

  // ---------------------------------------------------------------------
  // email (the library's isEmail/normalizeEmail are parameters)
  // ---------------------------------------------------------------------

  /** The email chain: the coerced value must satisfy the library's email check. */
  predicate ValidEmail(v: Option<Json>, isEmail: string -> bool) {
    Stringify(v).Some? && isEmail(Stringify(v).value)
  }

  // ---------------------------------------------------------------------
  // password
  // ---------------------------------------------------------------------

  predicate IsAlnum(c: char) {
    'a' <= c <= 'z' || 'A' <= c <= 'Z' || '0' <= c <= '9'
  }

  /** Some character is a lowercase ASCII letter. */
  predicate HasLower(s: string) { exists i :: 0 <= i < |s| && 'a' <= s[i] <= 'z' }

  /** Some character is an uppercase ASCII letter. */
  predicate HasUpper(s: string) { exists i :: 0 <= i < |s| && 'A' <= s[i] <= 'Z' }

  /** Some character is an ASCII digit. */
  predicate HasDigit(s: string) { exists i :: 0 <= i < |s| && '0' <= s[i] <= '9' }

  /** Some character is neither an ASCII letter nor a digit. */
  predicate HasSpecial(s: string) { exists i :: 0 <= i < |s| && !IsAlnum(s[i]) }

  /** At least 8 characters, a lowercase letter, an uppercase letter, a
      digit and a character outside `[A-Za-z0-9]`. */
  predicate PasswordOk(s: string) {
    MeasuredLength(s) >= 8 && HasLower(s) && HasUpper(s) && HasDigit(s) && HasSpecial(s)
  }

  /** The password chain: the raw value must itself be a string (no
      coercion here), and the string must pass the rules above. */
  predicate ValidPassword(v: Option<Json>)
    ensures ValidPassword(v) ==> v.Some? && v.value.JStr?
  {
    v.Some? && v.value.JStr? && PasswordOk(v.value.s)
  }

  /** "password" is refused (it has no uppercase letter), and a number is
      refused however it reads. */
  lemma PasswordExamples(n: int)
    ensures !ValidPassword(Some(JStr("password")))
    ensures !ValidPassword(Some(JNum(n)))
  {
    var p := "password";
    assert !HasUpper(p) by { assert forall i :: 0 <= i < |p| ==> !('A' <= p[i] <= 'Z'); }
  }

  /** A string with one character of each required class, at the indices
      given, and at least eight measured characters is accepted. */
  lemma PasswordFromWitnesses(s: string, lower: nat, upper: nat, digit: nat, special: nat)
    requires lower < |s| && upper < |s| && digit < |s| && special < |s|
    requires 'a' <= s[lower] <= 'z' && 'A' <= s[upper] <= 'Z' && '0' <= s[digit] <= '9' && !IsAlnum(s[special])
    requires MeasuredLength(s) >= 8
    ensures ValidPassword(Some(JStr(s)))
  {
  }

  /** "StrongP@ssw0rd" has every required kind of character. */
  lemma PasswordAcceptsStrong()
    ensures ValidPassword(Some(JStr("StrongP@ssw0rd")))
  {
    StrongPasswordLength();
    PasswordFromWitnesses("StrongP@ssw0rd", 1, 0, 11, 7);
  }

  lemma StrongPasswordLength()
    ensures MeasuredLength("StrongP@ssw0rd") == 14
  {
  }

  /** Every accepted password has at least eight characters. */
  lemma PasswordLengthBound(v: Option<Json>)
    requires ValidPassword(v)
    ensures |v.value.s| >= 8
  {
  }

  // ---------------------------------------------------------------------
  // fullName
  // ---------------------------------------------------------------------

  /** A string trims to "" exactly when it is all white space. */
  lemma TrimEmptyIffBlank(s: string)
    ensures Trim(s) == [] <==> forall i :: 0 <= i < |s| ==> IsSpace(s[i])
  {
    var n := LeadingSpace(s);
    if n < |s| {
      var rest := s[n..];
      assert rest[0] == s[n];
      assert KeptLength(rest) > 0;
    }
  }

  /** A name part the custom check accepts: a string that is not blank. */
  predicate NonBlankString(v: Option<Json>) {
    v.Some? && v.value.JStr? && Trim(v.value.s) != []
  }

  /** The custom check: an object whose firstName and lastName are strings
      that are not blank. An array passes `typeof === "object"` but has no
      such keys, so it fails too. */
  predicate ValidFullName(v: Option<Json>)
    ensures ValidFullName(v) ==>
              v.Some? && v.value.JObj? && "firstName" in v.value.fields && "lastName" in v.value.fields
  {
    v.Some? && v.value.JObj? &&
    NonBlankString(Lookup(v.value.fields, "firstName")) &&
    NonBlankString(Lookup(v.value.fields, "lastName"))
  }

  /** A first name of white space only is refused. */
  lemma FullNameRejectsBlank()
    ensures !ValidFullName(Some(JObj(map["firstName" := JStr("   "), "lastName" := JStr("Doe")])))
  {
    TrimEmptyIffBlank("   ");
  }

  /** A missing first name is refused, and so is an array of names. */
  lemma FullNameRejectsMissing()
    ensures !ValidFullName(Some(JObj(map["lastName" := JStr("Doe")])))
    ensures !ValidFullName(Some(JArr([JStr("John"), JStr("Doe")])))
  {
  }

  /** White space around a name is allowed, as long as some character of
      each name is not white space. */
  lemma FullNameAcceptsPadded(pad: string, first: string, last: string, i: nat, j: nat)
    requires forall k :: 0 <= k < |pad| ==> IsSpace(pad[k])
    requires i < |first| && !IsSpace(first[i]) && j < |last| && !IsSpace(last[j])
    ensures ValidFullName(Some(JObj(map["firstName" := JStr(pad + first), "lastName" := JStr(last + pad)])))
  {
    NonBlankWitness(pad + first, |pad| + i);
    NonBlankWitness(last + pad, j);
    FullNameFromParts(pad + first, last + pad);
  }

  /** An object with a non-blank first and last name passes. */
  lemma FullNameFromParts(first: string, last: string)
    requires NonBlankString(Some(JStr(first))) && NonBlankString(Some(JStr(last)))
    ensures ValidFullName(Some(JObj(map["firstName" := JStr(first), "lastName" := JStr(last)])))
  {
    assert |"firstName"| != |"lastName"|;
  }

  /** A string with a character outside white space is not blank. */
  lemma NonBlankWitness(s: string, i: nat)
    requires i < |s| && !IsSpace(s[i])
    ensures NonBlankString(Some(JStr(s)))
  {
    TrimEmptyIffBlank(s);
  }

  // ---------------------------------------------------------------------
  // role
  // ---------------------------------------------------------------------

  /** The role chain: an absent key is skipped; any value sent must read as
      "user" or "seller" (`null` reads as "" and is refused). */
  predicate ValidRole(v: Option<Json>)
    ensures ValidRole(v) ==> v.None? || v.value.JStr?
  {
    v.None? || (Stringify(v).Some? && (Stringify(v).value == "user" || Stringify(v).value == "seller"))
  }

  /** A role, when sent, must be the string "user" or "seller". */
  lemma RoleCharacterisation(v: Option<Json>)
    ensures ValidRole(v) <==> v.None? || v == Some(JStr("user")) || v == Some(JStr("seller"))
  {
    if v.Some? && v.value.JNum? {
      var r := IntToString(v.value.n);
      assert r != "user" && r != "seller" by {
        if v.value.n >= 0 { assert '0' <= r[0] <= '9'; }
      }
    }
  }

  /** "admin" is refused. */
  lemma RoleRejectsAdmin()
    ensures !ValidRole(Some(JStr("admin")))
    ensures !ValidRole(Some(JNull))
  {
  }

  // ---------------------------------------------------------------------
  // addresses
  // ---------------------------------------------------------------------

  /** An address field may be absent, null or a string. */
  predicate AddressFieldOk(v: Option<Json>) {
    v.None? || v == Some(JNull) || v.value.JStr?
  }

  /** The `addresses.*.<field>` rules on one element. An element that is not
      an object has none of the fields, so nothing is checked on it. */
  predicate AddressEntryOk(e: Json) {
    e.JObj? ==>
      AddressFieldOk(Lookup(e.fields, "street")) &&
      AddressFieldOk(Lookup(e.fields, "city")) &&
      AddressFieldOk(Lookup(e.fields, "state")) &&
      AddressFieldOk(Lookup(e.fields, "zipCode")) &&
      AddressFieldOk(Lookup(e.fields, "country"))
  }

  /** The addresses chain: absent, or an array whose elements pass the per-field rules. */
  predicate ValidAddresses(v: Option<Json>)
    ensures ValidAddresses(v) ==> v.None? || v.value.JArr?
  {
    v.None? || (v.value.JArr? && forall k :: 0 <= k < |v.value.items| ==> AddressEntryOk(v.value.items[k]))
  }

  /** An object in place of the array is refused, whatever it holds. */
  lemma AddressesMustBeArray(f: map<string, Json>)
    ensures !ValidAddresses(Some(JObj(f)))
    ensures !ValidAddresses(Some(JNull))
    ensures ValidAddresses(None) && ValidAddresses(Some(JArr([])))
  {
  }

  /** A number where an address field belongs is refused. */
  lemma AddressFieldMustBeString(n: int)
    ensures !ValidAddresses(Some(JArr([JObj(map["city" := JNum(n)])])))
  {
    var e := JObj(map["city" := JNum(n)]);
    assert !AddressEntryOk(e);
    assert [e][0] == e;
  }

  /** `after` holds the field `key` of `before` trimmed when it is a
      string, and unchanged otherwise. */
  predicate TrimmedField(before: map<string, Json>, after: map<string, Json>, key: string) {
    key in before ==>
      key in after && after[key] == (if before[key].JStr? then JStr(Trim(before[key].s)) else before[key])
  }

  /** The trim sanitiser on one address field: only strings are rewritten
      (null and absent fields skip the chain). */
  function SanitizeField(fields: map<string, Json>, key: string): (r: map<string, Json>)
    ensures r.Keys == fields.Keys
    ensures TrimmedField(fields, r, key)
    ensures forall k :: k in fields && k != key ==> r[k] == fields[k]
  {
    if key in fields && fields[key].JStr? then fields[key := JStr(Trim(fields[key].s))] else fields
  }

  /** One element of `addresses` after the five trim sanitisers. */
  function SanitizeAddress(e: Json): (r: Json)
    ensures !e.JObj? ==> r == e
    ensures e.JObj? ==> r.JObj? && r.fields.Keys == e.fields.Keys
    ensures e.JObj? ==>
              TrimmedField(e.fields, r.fields, "street") && TrimmedField(e.fields, r.fields, "city") &&
              TrimmedField(e.fields, r.fields, "state") && TrimmedField(e.fields, r.fields, "zipCode") &&
              TrimmedField(e.fields, r.fields, "country")
    ensures e.JObj? ==>
              forall k :: k in e.fields && k !in {"street", "city", "state", "zipCode", "country"} ==>
                r.fields[k] == e.fields[k]
  {
    if !e.JObj? then e
    else
      var f := e.fields;
      JObj(SanitizeField(SanitizeField(SanitizeField(SanitizeField(SanitizeField(f,
        "street"), "city"), "state"), "zipCode"), "country"))
  }

  // ---------------------------------------------------------------------
  // The whole body
  // ---------------------------------------------------------------------

  /** The route's rule list: every rule holds of the body. */
  predicate RegisterBodyValid(body: map<string, Json>, isEmail: string -> bool)
    ensures RegisterBodyValid(body, isEmail) ==> "username" in body && "password" in body && "fullName" in body
  {
    ValidUsername(Lookup(body, "username")) &&
    ValidEmail(Lookup(body, "email"), isEmail) &&
    ValidPassword(Lookup(body, "password")) &&
    ValidFullName(Lookup(body, "fullName")) &&
    ValidRole(Lookup(body, "role")) &&
    ValidAddresses(Lookup(body, "addresses"))
  }

  /** Keys the rules do not name play no part in the verdict. */
  lemma UnknownKeysIgnored(body: map<string, Json>, key: string, v: Json, isEmail: string -> bool)
    requires key !in {"username", "email", "password", "fullName", "role", "addresses"}
    ensures RegisterBodyValid(body[key := v], isEmail) == RegisterBodyValid(body, isEmail)
  {
    var b := body[key := v];
    assert Lookup(b, "username") == Lookup(body, "username");
    assert Lookup(b, "email") == Lookup(body, "email");
    assert Lookup(b, "password") == Lookup(body, "password");
    assert Lookup(b, "fullName") == Lookup(body, "fullName");
    assert Lookup(b, "role") == Lookup(body, "role");
    assert Lookup(b, "addresses") == Lookup(body, "addresses");
  }
}
