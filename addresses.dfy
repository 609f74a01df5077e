/** The address sub-documents of a user record (AddressSchema) and the
    pre-save hook of the user schema that keeps at most one of them marked
    default, making the first one default when none is. */
module Addresses {
  import opened Wrappers
  import opened Json

  /** One stored address. The text fields may be missing (`null` or absent). */
  datatype Address = Address(
    street: Option<string>,
    city: Option<string>,
    state: Option<string>,
    zipCode: Option<string>,
    country: Option<string>,
    isDefault: bool)

  /** `a` and `b` agree on every field except `isDefault`. */
  predicate SameDetails(a: Address, b: Address) {
    a.street == b.street && a.city == b.city && a.state == b.state &&
    a.zipCode == b.zipCode && a.country == b.country
  }

  /** One element of the stored `addresses` array. Mongoose's cast of a
      document array keeps a `null` element as it is instead of building a
      sub-document from it: that is `None`. */
  type Entry = Option<Address>

  /** The hook's test `addresses[i]?.isDefault === true`. */
  predicate IsDefaultEntry(e: Entry) {
    e.Some? && e.value.isDefault
  }

  /** Both entries are missing, or both are addresses with the same details. */
  predicate SameEntry(a: Entry, b: Entry) {
    a.Some? == b.Some? && (a.Some? ==> SameDetails(a.value, b.value))
  }

  /** Every entry holds an address. */
  predicate AllPresent(s: seq<Entry>) {
    forall i :: 0 <= i < |s| ==> s[i].Some?
  }

  // ---------------------------------------------------------------------
  // Casting a request value into an Entry
  // ---------------------------------------------------------------------

  /** Mongoose's cast of a value to a String path: None means a cast error. */
  function CastString(v: Option<Json>): (r: Option<Option<string>>)
    ensures v.None? || v == Some(JNull) ==> r == Some(None)
    ensures v.Some? && v.value.JStr? ==> r == Some(Some(v.value.s))
    ensures v.Some? && v.value.JNum? ==> r == Some(Some(IntToString(v.value.n)))
    ensures v == Some(JBool(true)) ==> r == Some(Some("true"))
    ensures v == Some(JBool(false)) ==> r == Some(Some("false"))
    ensures v.Some? && (v.value.JArr? || v.value.JObj?) ==> r.None?
  {
    match v
    case None => Some(None)
    case Some(JNull) => Some(None)
    case Some(JStr(s)) => Some(Some(s))
    case Some(JNum(n)) => Some(Some(IntToString(n)))
    case Some(JBool(b)) => Some(Some(if b then "true" else "false"))
    case Some(JArr(_)) => None
    case Some(JObj(_)) => None
  }

  /** The spellings Mongoose's Boolean cast reads as true. */
  predicate CastsToTrue(v: Json) {
    v == JBool(true) || v == JStr("true") || v == JNum(1) || v == JStr("1") || v == JStr("yes")
  }

  /** The spellings Mongoose's Boolean cast reads as false. */
  predicate CastsToFalse(v: Json) {
    v == JBool(false) || v == JStr("false") || v == JNum(0) || v == JStr("0") || v == JStr("no")
  }

  /** The `isDefault` path: absent takes the schema default `false`; `null`
      stays null, which the hook's `=== true` test reads as not default;
      any other spelling is a cast error (None). */
  function CastIsDefault(v: Option<Json>): (r: Option<bool>)
    ensures v.None? ==> r == Some(false)
    ensures r == Some(true) <==> v.Some? && CastsToTrue(v.value)
    ensures r.None? <==> v.Some? && v.value != JNull && !CastsToTrue(v.value) && !CastsToFalse(v.value)
  {
    match v
    case None => Some(false)
    case Some(j) =>
      if CastsToTrue(j) then Some(true)
      else if CastsToFalse(j) || j == JNull then Some(false)
      else None
  }

  /** Casts an object of the request's `addresses` array to an Address;
      None when Mongoose would refuse it (not an object, a field of the
      wrong kind). Keys outside the schema are dropped. */
  function CastAddress(element: Json): (r: Option<Address>)
    ensures !element.JObj? ==> r.None?
    ensures element.JObj? ==>
              (r.None? <==>
                 || CastString(Lookup(element.fields, "street")).None?
                 || CastString(Lookup(element.fields, "city")).None?
                 || CastString(Lookup(element.fields, "state")).None?
                 || CastString(Lookup(element.fields, "zipCode")).None?
                 || CastString(Lookup(element.fields, "country")).None?
                 || CastIsDefault(Lookup(element.fields, "isDefault")).None?)
  {
    if !element.JObj? then None
    else
      var f := element.fields;
      var street := CastString(Lookup(f, "street"));
      var city := CastString(Lookup(f, "city"));
      var state := CastString(Lookup(f, "state"));
      var zipCode := CastString(Lookup(f, "zipCode"));
      var country := CastString(Lookup(f, "country"));
      var isDefault := CastIsDefault(Lookup(f, "isDefault"));
      if street.None? || city.None? || state.None? || zipCode.None? || country.None? || isDefault.None?
      then None
      else Some(Address(street.value, city.value, state.value, zipCode.value, country.value, isDefault.value))
  }

  /** Casts one element of the request's `addresses` array: `null` is kept
      as a missing entry, an object that casts becomes an address, anything
      else is a cast error (None). */
  function CastElement(element: Json): (r: Option<Entry>)
    ensures r == Some(None) <==> element == JNull
    ensures !element.JObj? && element != JNull ==> r.None?
    ensures r.Some? && r.value.Some? ==> element.JObj? && r.value == CastAddress(element)
    ensures element.JObj? ==> r == (if CastAddress(element).Some? then Some(CastAddress(element)) else None)
  {
    if element == JNull then Some(None)
    else if CastAddress(element).None? then None
    else Some(CastAddress(element))
  }

  /** The text a field was sent with: the string itself, or missing. */
  function SentText(v: Option<Json>): Option<string> {
    if v.Some? && v.value.JStr? then Some(v.value.s) else None
  }

  /** A text field sent absent, as `null` or as a string. */
  predicate TextSent(v: Option<Json>) {
    v.None? || v == Some(JNull) || v.value.JStr?
  }

  /** An object whose five text fields were sent absent, null or as strings,
      and whose `isDefault` is absent, null or a Boolean spelling, casts; each
      field sent as a string is stored as that string, an absent or null one
      is stored missing, and the address is default exactly when a true
      spelling was sent. */
  lemma CastStoresSent(f: map<string, Json>)
    requires TextSent(Lookup(f, "street")) && TextSent(Lookup(f, "city")) && TextSent(Lookup(f, "state"))
    requires TextSent(Lookup(f, "zipCode")) && TextSent(Lookup(f, "country"))
    requires "isDefault" in f ==> f["isDefault"] == JNull || CastsToTrue(f["isDefault"]) || CastsToFalse(f["isDefault"])
    ensures CastAddress(JObj(f)).Some?
    ensures var a := CastAddress(JObj(f)).value;
            && a.street == SentText(Lookup(f, "street"))
            && a.city == SentText(Lookup(f, "city"))
            && a.state == SentText(Lookup(f, "state"))
            && a.zipCode == SentText(Lookup(f, "zipCode"))
            && a.country == SentText(Lookup(f, "country"))
            && (a.isDefault <==> "isDefault" in f && CastsToTrue(f["isDefault"]))
  {
  }

  /** An address sent without `isDefault` is stored as not default, and its
      text fields are the strings that were sent. */
  lemma CastWithoutIsDefault(f: map<string, Json>, street: string, city: string)
    requires f.Keys == {"street", "city"} && f["street"] == JStr(street) && f["city"] == JStr(city)
    ensures CastElement(JObj(f)) == Some(Some(Address(Some(street), Some(city), None, None, None, false)))
  {
    assert "isDefault" !in f && "state" !in f && "zipCode" !in f && "country" !in f;
  }

  /** Whenever the cast gives an address, it is default exactly when
      `isDefault` was sent with one of Mongoose's true spellings. */
  lemma CastDefaultOnlyWhenSent(element: Json)
    requires CastElement(element).Some? && CastElement(element).value.Some?
    ensures IsDefaultEntry(CastElement(element).value) <==>
              element.JObj? && "isDefault" in element.fields && CastsToTrue(element.fields["isDefault"])
  {
    assert element.JObj? && CastElement(element).value == CastAddress(element);
  }

  // ---------------------------------------------------------------------
  // The default-address hook
  // ---------------------------------------------------------------------

  /** The indices of the entries marked default, in increasing order: what
      the hook's first loop collects in `defaultIndices`. */
  function Defaults(s: seq<Entry>): (d: seq<nat>)
    ensures |d| <= |s|
    ensures forall k :: 0 <= k < |d| ==> d[k] < |s| && IsDefaultEntry(s[d[k]])
    ensures forall k, l :: 0 <= k < l < |d| ==> d[k] < d[l]
    ensures forall i :: 0 <= i < |s| && IsDefaultEntry(s[i]) ==> i in d
  {
    if s == [] then []
    else
      var p := Defaults(s[..|s| - 1]);
      assert forall k :: 0 <= k < |p| ==> s[..|s| - 1][p[k]] == s[p[k]];
      if IsDefaultEntry(s[|s| - 1]) then p + [|s| - 1] else p
  }

  /** The list has exactly one entry marked default. */
  predicate HasOneDefault(s: seq<Entry>) {
    exists k :: 0 <= k < |s| && IsDefaultEntry(s[k]) && forall i :: 0 <= i < |s| && IsDefaultEntry(s[i]) ==> i == k
  }

  /** No entry is marked default. */
  predicate NoDefault(s: seq<Entry>) {
    forall i :: 0 <= i < |s| ==> !IsDefaultEntry(s[i])
  }

  /** Two entries are marked default. */
  predicate SeveralDefaults(s: seq<Entry>) {
    exists i, j :: 0 <= i < j < |s| && IsDefaultEntry(s[i]) && IsDefaultEntry(s[j])
  }

  /** The hook's second loop run to the end: the entry at `keep` becomes the
      only default, nothing else changes. */
  function KeepOnly(s: seq<Entry>, keep: nat): (r: seq<Entry>)
    requires AllPresent(s)
    ensures |r| == |s| && AllPresent(r)
    ensures forall i :: 0 <= i < |s| ==> SameEntry(r[i], s[i])
    ensures keep < |s| ==> IsDefaultEntry(r[keep]) && HasOneDefault(r)
    ensures keep >= |s| ==> NoDefault(r)
  {
    var r := seq(|s|, i requires 0 <= i < |s| => Some(s[i].value.(isDefault := i == keep)));
    assert keep < |s| ==> IsDefaultEntry(r[keep]);
    r
  }

  /** What the pre-save hook does to the address list: the new list, or
      None when it throws because it writes `isDefault` on a missing entry
      (so the save fails). */
  function Normalize(s: seq<Entry>): (r: Option<seq<Entry>>)
    ensures r.Some? ==> |r.value| == |s|
  {
    var d := Defaults(s);
    if |s| > 0 && |d| == 0 then
      if s[0].None? then None else Some(s[0 := Some(s[0].value.(isDefault := true))])
    else if |d| > 1 then
      if AllPresent(s) then Some(KeepOnly(s, d[|d| - 1])) else None
    else Some(s)
  }

  /** The last collected index is the largest index marked default. */
  lemma LastDefaultIsLargest(s: seq<Entry>)
    requires |Defaults(s)| > 0
    ensures var d := Defaults(s); var k := d[|d| - 1];
            k < |s| && IsDefaultEntry(s[k]) && forall j :: k < j < |s| ==> !IsDefaultEntry(s[j])
  {
  }

  /** Nothing is collected exactly when nothing is default. */
  lemma NoneCollectedIffNoDefault(s: seq<Entry>)
    ensures Defaults(s) == [] <==> NoDefault(s)
  {
    var d := Defaults(s);
    if d != [] {
      assert IsDefaultEntry(s[d[0]]);
    }
  }

  /** Two or more are collected exactly when two entries are default. */
  lemma ManyCollectedIffSeveral(s: seq<Entry>)
    ensures |Defaults(s)| > 1 <==> SeveralDefaults(s)
  {
    var d := Defaults(s);
    if |d| > 1 {
      assert IsDefaultEntry(s[d[0]]) && IsDefaultEntry(s[d[1]]) && d[0] < d[1];
    }
    if SeveralDefaults(s) {
      var i, j :| 0 <= i < j < |s| && IsDefaultEntry(s[i]) && IsDefaultEntry(s[j]);
      var a :| 0 <= a < |d| && d[a] == i;
      var b :| 0 <= b < |d| && d[b] == j;
      assert a != b;
    }
  }

  /** The hook throws exactly when it has to write to a missing entry: no
      entry is default and the first is missing, or two entries are default
      and some entry is missing. */
  lemma NormalizeFails(s: seq<Entry>)
    ensures Normalize(s).None? <==>
              (|s| > 0 && s[0].None? && NoDefault(s)) || (SeveralDefaults(s) && !AllPresent(s))
  {
    NoneCollectedIffNoDefault(s);
    ManyCollectedIffSeveral(s);
  }

  /** Whenever the hook succeeds it keeps the length, keeps missing entries
      missing and changes no field other than `isDefault`. */
  lemma NormalizeKeepsDetails(s: seq<Entry>)
    requires Normalize(s).Some?
    ensures |Normalize(s).value| == |s|
    ensures forall i :: 0 <= i < |s| ==> SameEntry(Normalize(s).value[i], s[i])
  {
  }

  /** A non-empty list with no default whose first entry is an address gets
      that entry as default; every other entry is unchanged. */
  lemma NormalizeNoDefault(s: seq<Entry>)
    requires |s| > 0 && s[0].Some?
    requires NoDefault(s)
    ensures Normalize(s).Some?
    ensures Normalize(s).value[0] == Some(s[0].value.(isDefault := true))
    ensures forall i :: 1 <= i < |s| ==> Normalize(s).value[i] == s[i]
  {
    NoneCollectedIffNoDefault(s);
  }

  /** A list of addresses with two or more defaults keeps exactly one: the
      entry with the largest index that was originally default. */
  lemma NormalizeManyDefaults(s: seq<Entry>, i: nat, j: nat)
    requires AllPresent(s)
    requires i < j < |s| && IsDefaultEntry(s[i]) && IsDefaultEntry(s[j])
    ensures Normalize(s).Some?
    ensures forall k :: 0 <= k < |s| ==>
              (IsDefaultEntry(Normalize(s).value[k]) <==>
                IsDefaultEntry(s[k]) && forall m :: k < m < |s| ==> !IsDefaultEntry(s[m]))
  {
    ManyCollectedIffSeveral(s);
    LastDefaultIsLargest(s);
    var d := Defaults(s);
    var last := d[|d| - 1];
    var r := KeepOnly(s, last);
    assert Normalize(s) == Some(r);
    forall k | 0 <= k < |s|
      ensures IsDefaultEntry(r[k]) <==> IsDefaultEntry(s[k]) && forall m :: k < m < |s| ==> !IsDefaultEntry(s[m])
    {
      if k < last {
        assert IsDefaultEntry(s[last]);
      }
    }
  }

  /** A list with exactly one default is left unchanged, whatever else it holds. */
  lemma NormalizeKeepsSingleDefault(s: seq<Entry>)
    requires HasOneDefault(s)
    ensures Normalize(s) == Some(s)
  {
    var k :| 0 <= k < |s| && IsDefaultEntry(s[k]) && forall i :: 0 <= i < |s| && IsDefaultEntry(s[i]) ==> i == k;
    var d := Defaults(s);
    assert k in d;
    ManyCollectedIffSeveral(s);
  }

  /** An empty list is left unchanged. */
  lemma NormalizeEmpty()
    ensures Normalize([]) == Some([])
  {
  }

  /** Whenever the hook succeeds, an empty list stays empty and a non-empty
      one has exactly one default. */
  lemma NormalizeEstablishesOneDefault(s: seq<Entry>)
    requires Normalize(s).Some?
    ensures s == [] ==> Normalize(s).value == []
    ensures s != [] ==> HasOneDefault(Normalize(s).value)
  {
    var d := Defaults(s);
    if s != [] {
      if |d| == 0 {
        NoneCollectedIffNoDefault(s);
        NormalizeNoDefault(s);
        OnlyDefaultAt(Normalize(s).value, 0);
      } else if |d| == 1 {
        forall i | 0 <= i < |s| && IsDefaultEntry(s[i]) ensures i == d[0] {
          assert i in d;
        }
        OnlyDefaultAt(s, d[0]);
      }
    }
  }

  lemma OnlyDefaultAt(s: seq<Entry>, k: nat)
    requires k < |s| && IsDefaultEntry(s[k])
    requires forall i :: 0 <= i < |s| && IsDefaultEntry(s[i]) ==> i == k
    ensures HasOneDefault(s)
  {
  }

  /** The hook is idempotent: run on its own result it succeeds and changes
      nothing. */
  lemma NormalizeIdempotent(s: seq<Entry>)
    requires Normalize(s).Some?
    ensures Normalize(Normalize(s).value) == Normalize(s)
  {
    NormalizeEstablishesOneDefault(s);
    if s != [] {
      NormalizeKeepsSingleDefault(Normalize(s).value);
    }
  }

  /** The first index that holds no address. */
  function FirstMissing(s: seq<Entry>): (k: nat)
    requires !AllPresent(s)
    ensures k < |s| && s[k].None?
    ensures forall i :: 0 <= i < k ==> s[i].Some?
  {
    if s[0].None? then 0
    else
      MissingInTail(s);
      1 + FirstMissing(s[1..])
  }

  lemma MissingInTail(s: seq<Entry>)
    requires !AllPresent(s) && s[0].Some?
    ensures !AllPresent(s[1..])
  {
    var i :| 0 <= i < |s| && s[i].None?;
    assert s[1..][i - 1] == s[i];
  }

  /** The second loop stopped before index `stop`: the entries before it
      rewritten to `isDefault := (index == keep)`, the rest as they were. */
  function KeptUpTo(s: seq<Entry>, keep: nat, stop: nat): (r: seq<Entry>)
    requires stop <= |s| && forall i :: 0 <= i < stop ==> s[i].Some?
    ensures |r| == |s|
    ensures forall i :: stop <= i < |s| ==> r[i] == s[i]
  {
    seq(|s|, i requires 0 <= i < |s| => if i < stop then Some(s[i].value.(isDefault := i == keep)) else s[i])
  }

  /** The array as the hook leaves it when it throws: in the second loop,
      the entries before the first missing one have been rewritten; the
      first branch throws before writing anything. */
  function LeftOnThrow(s: seq<Entry>): seq<Entry> {
    var d := Defaults(s);
    if |d| > 1 && !AllPresent(s) then KeptUpTo(s, d[|d| - 1], FirstMissing(s)) else s
  }

  /** The hook's first loop: the indices of the entries marked default. */
  method CollectDefaults(addresses: array<Entry>) returns (defaultIndices: seq<nat>)
    ensures defaultIndices == Defaults(addresses[..])
  {
    defaultIndices := [];
    for i := 0 to addresses.Length
      invariant defaultIndices == Defaults(addresses[..i])
    {
      assert addresses[..i + 1][..i] == addresses[..i];
      if addresses[i].Some? && addresses[i].value.isDefault {
        defaultIndices := defaultIndices + [i];
      }
    }
    assert addresses[..addresses.Length] == addresses[..];
  }

  /** The hook's second loop: every entry takes `isDefault := (i == keep)`;
      it throws (`ok` false) at the first missing entry. */
  method KeepOnlyInPlace(addresses: array<Entry>, keepIndex: nat) returns (ok: bool)
    modifies addresses
    ensures ok <==> AllPresent(old(addresses[..]))
    ensures ok ==> addresses[..] == KeepOnly(old(addresses[..]), keepIndex)
    ensures !ok ==> addresses[..] == KeptUpTo(old(addresses[..]), keepIndex, FirstMissing(old(addresses[..])))
  {
    for i := 0 to addresses.Length
      invariant forall k :: 0 <= k < i ==>
                  old(addresses[k]).Some? && addresses[k] == Some(old(addresses[k]).value.(isDefault := k == keepIndex))
      invariant forall k :: i <= k < addresses.Length ==> addresses[k] == old(addresses[k])
    {
      if addresses[i].None? {
        assert !AllPresent(old(addresses[..]));
        assert FirstMissing(old(addresses[..])) == i;
        return false;
      }
      addresses[i] := Some(addresses[i].value.(isDefault := i == keepIndex));
    }
    return true;
  }

  /** The pre-save hook, run in place on the `addresses` array (the schema
      always supplies an array, so its `Array.isArray` guard never fires).
      `ok` is false when the hook throws. */
  method NormalizeAddresses(addresses: array<Entry>) returns (ok: bool)
    modifies addresses
    ensures ok <==> Normalize(old(addresses[..])).Some?
    ensures ok ==> addresses[..] == Normalize(old(addresses[..])).value
    ensures !ok ==> addresses[..] == LeftOnThrow(old(addresses[..]))
  {
    var defaultIndices := CollectDefaults(addresses);
    ok := true;
    if addresses.Length > 0 && |defaultIndices| == 0 {
      if addresses[0].None? {
        return false;
      }
      addresses[0] := Some(addresses[0].value.(isDefault := true));
    } else if |defaultIndices| > 1 {
      ok := KeepOnlyInPlace(addresses, defaultIndices[|defaultIndices| - 1]);
    }
  }
}
