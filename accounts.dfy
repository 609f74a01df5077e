/** The user model's top-level fields and the `register` controller: the
    uniqueness pre-check on email or username, password hashing, the save
    (which runs the default-address hook), the mapping of store errors to
    409 and 500, and the projection of the saved user into the 201 reply. */
module Accounts {
  import opened Wrappers
  import opened Json
  import opened Addresses
  import Validation

  /** The schema's role enum. */
  datatype Role = UserRole | SellerRole

  datatype FullName = FullName(firstName: string, lastName: string)

  /** The fields `register` takes from the request body, after validation
      and the sanitisers. `addresses` is Mongoose's cast of the sent array:
      None when an element cannot be cast, which fails the save. Other keys
      of the body are never read. */
  datatype Registration = Registration(
    username: string,
    email: string,
    password: string,
    fullName: FullName,
    role: Option<Role>,
    addresses: Option<seq<Entry>>)

  /** A stored user document; `password` holds the hash. */
  datatype User = User(
    id: nat,
    username: string,
    email: string,
    password: string,
    fullName: FullName,
    role: Role,
    addresses: seq<Entry>)

  /** The body of the 201 reply. It has no password field. */
  datatype UserView = UserView(
    id: nat,
    username: string,
    email: string,
    fullName: FullName,
    role: Role,
    addresses: seq<Entry>)

  /** An error raised by the store; `code` is the driver's error code, if any. */
  datatype DbError = DbError(code: Option<int>)

  /** What the store does on this request: the pre-check query and the
      save may each raise an error. */
  datatype StoreFaults = StoreFaults(lookup: Option<DbError>, save: Option<DbError>)

  /** The JSON reply `register` sends. */
  datatype Reply = Created(user: UserView) | Refused(status: nat, message: string)

  function StatusOf(r: Reply): nat {
    if r.Created? then 201 else r.status
  }

  /** MongoDB's duplicate-key error code. */
  const DuplicateKeyCode: int := 11000

  const Conflict: Reply := Refused(409, "User already exists")
  const ServerError: Reply := Refused(500, "Internal server error")

  /** The catch block: a duplicate-key error is a conflict, anything else a
      server error. */
  function FailureReply(e: DbError): (r: Reply)
    ensures r == Conflict || r == ServerError
    ensures r == Conflict <==> e.code == Some(11000)
  {
    if e.code == Some(DuplicateKeyCode) then Conflict else ServerError
  }

  // ---------------------------------------------------------------------
  // From the request body to a Registration
  // ---------------------------------------------------------------------

  /** The outcome of reading the body: refused by the validation rules
      (answered by the route's error handler), or a Registration. */
  datatype Parsed = ValidationFailed | Parsed(reg: Registration)

  /** The elements of the body's `addresses` array; none when it is absent. */
  function AddressItems(body: map<string, Json>): seq<Json> {
    if "addresses" in body && body["addresses"].JArr? then body["addresses"].items else []
  }

  /** Every element of `addresses`, sanitised and cast; None when one of
      them cannot be cast. */
  function CastAll(items: seq<Json>): (r: Option<seq<Entry>>)
    ensures r.Some? <==> forall i :: 0 <= i < |items| ==> CastElement(Validation.SanitizeAddress(items[i])).Some?
    ensures r.Some? ==> |r.value| == |items|
    ensures r.Some? ==>
              forall i :: 0 <= i < |items| ==> Some(r.value[i]) == CastElement(Validation.SanitizeAddress(items[i]))
  {
    if items == [] then Some([])
    else
      var head := CastElement(Validation.SanitizeAddress(items[0]));
      var tail := CastAll(items[1..]);
      if head.None? || tail.None? then None else Some([head.value] + tail.value)
  }

  /** An element `false`, `0` or `""` anywhere in the sent array is a cast
      error: only `null` is kept without building a sub-document. */
  lemma CastAllRefusesFalsy(items: seq<Json>, k: nat)
    requires k < |items| && items[k] in {JBool(false), JNum(0), JStr("")}
    ensures CastAll(items).None?
  {
    assert Validation.SanitizeAddress(items[k]) == items[k];
  }

  /** An object whose `isDefault` is neither null nor a Boolean spelling;
      no rule checks that field. */
  predicate BadIsDefault(e: Json) {
    e.JObj? && "isDefault" in e.fields &&
    var b := e.fields["isDefault"]; b != JNull && !CastsToTrue(b) && !CastsToFalse(b)
  }

  /** Such an element is a cast error, so the whole list fails to cast. */
  lemma CastAllRefusesBadIsDefault(items: seq<Json>, k: nat)
    requires k < |items| && BadIsDefault(items[k])
    ensures CastAll(items).None?
  {
    var e := Validation.SanitizeAddress(items[k]);
    assert "isDefault" !in {"street", "city", "state", "zipCode", "country"};
    assert e.JObj? && Lookup(e.fields, "isDefault") == Some(items[k].fields["isDefault"]);
    assert CastIsDefault(Lookup(e.fields, "isDefault")).None?;
  }

  function RoleOf(v: Option<Json>): Option<Role> {
    if v.None? then None
    else if v.value == JStr("seller") then Some(SellerRole)
    else Some(UserRole)
  }

  /** What `register` receives for a body: the username and the address
      fields trimmed by the sanitisers, the email passed through the
      library's `normalizeEmail`, the rest as sent. */
  function RegistrationOf(body: map<string, Json>, isEmail: string -> bool, normalizeEmail: string -> string): (r: Parsed)
    ensures r.Parsed? <==> Validation.RegisterBodyValid(body, isEmail)
    ensures r.Parsed? ==>
              && r.reg.username == Validation.Trim(Validation.Stringify(Lookup(body, "username")).value)
              && r.reg.email == normalizeEmail(Validation.Stringify(Lookup(body, "email")).value)
              && Some(JStr(r.reg.password)) == Lookup(body, "password")
              && Some(JStr(r.reg.fullName.firstName)) == Lookup(body["fullName"].fields, "firstName")
              && Some(JStr(r.reg.fullName.lastName)) == Lookup(body["fullName"].fields, "lastName")
              && r.reg.addresses == CastAll(AddressItems(body))
  {
    if !Validation.RegisterBodyValid(body, isEmail) then ValidationFailed
    else
      var name := body["fullName"].fields;
      Parsed(Registration(
        Validation.SanitizedUsername(Lookup(body, "username")),
        normalizeEmail(Validation.Stringify(Lookup(body, "email")).value),
        body["password"].s,
        FullName(name["firstName"].s, name["lastName"].s),
        RoleOf(Lookup(body, "role")),
        CastAll(AddressItems(body))))
  }

  /** The role is taken only when it was sent, and then only as "user" or
      "seller"; the username is trimmed to 3-30 word characters. */
  lemma RegistrationFields(body: map<string, Json>, isEmail: string -> bool, normalizeEmail: string -> string)
    requires RegistrationOf(body, isEmail, normalizeEmail).Parsed?
    ensures var reg := RegistrationOf(body, isEmail, normalizeEmail).reg;
            && (reg.role.None? <==> "role" !in body)
            && (reg.role == Some(SellerRole) <==> "role" in body && body["role"] == JStr("seller"))
            && (reg.role == Some(UserRole) <==> "role" in body && body["role"] == JStr("user"))
            && 3 <= |reg.username| <= 30
            && (forall i :: 0 <= i < |reg.username| ==> Validation.IsWordChar(reg.username[i]))
            && Validation.ValidPassword(Some(JStr(reg.password)))
  {
    Validation.RoleCharacterisation(Lookup(body, "role"));
  }

  /** Keys outside the ones `register` reads change nothing (a body cannot
      smuggle in fields such as `isAdmin`). */
  lemma UnknownKeysIgnored(body: map<string, Json>, key: string, v: Json,
                           isEmail: string -> bool, normalizeEmail: string -> string)
    requires key !in {"username", "email", "password", "fullName", "role", "addresses"}
    ensures RegistrationOf(body[key := v], isEmail, normalizeEmail) == RegistrationOf(body, isEmail, normalizeEmail)
  {
    Validation.UnknownKeysIgnored(body, key, v, isEmail);
    var b := body[key := v];
    assert Lookup(b, "username") == Lookup(body, "username");
    assert Lookup(b, "email") == Lookup(body, "email");
    assert Lookup(b, "role") == Lookup(body, "role");
  }

  // ---------------------------------------------------------------------
  // The register decision
  // ---------------------------------------------------------------------

  /** The pre-check query finds a user with the same email or the same username. */
  predicate Taken(users: seq<User>, username: string, email: string) {
    exists i :: 0 <= i < |users| && (users[i].email == email || users[i].username == username)
  }

  /** No two stored users share a username or an email. */
  ghost predicate UniqueKeys(users: seq<User>) {
    forall i, j :: 0 <= i < j < |users| ==>
      users[i].username != users[j].username && users[i].email != users[j].email
  }

  /** The addresses cast, and the pre-save hook runs without throwing. */
  predicate Saveable(reg: Registration) {
    reg.addresses.Some? && Normalize(reg.addresses.value).Some?
  }

  /** The document the controller builds and saves, as the save's
      validation and the pre-save hook leave it: the hashed password, the
      normalised addresses and the schema default role when none was sent.
      None when the addresses failed to cast or the hook threw. */
  function NewUser(id: nat, reg: Registration, hash: string -> string): (r: Option<User>)
    ensures r.Some? <==> Saveable(reg)
    ensures r.Some? ==> r.value.id == id && r.value.password == hash(reg.password)
    ensures r.Some? ==> |r.value.addresses| == |reg.addresses.value|
  {
    if !Saveable(reg) then None
    else
      Some(User(id, reg.username, reg.email, hash(reg.password), reg.fullName,
                reg.role.GetOr(UserRole), Normalize(reg.addresses.value).value))
  }

  /** The reply's projection of the saved user. */
  function View(u: User): UserView {
    UserView(u.id, u.username, u.email, u.fullName, u.role, u.addresses)
  }

  /** The reply, and the user added to the store if any. */
  datatype Registered = Registered(reply: Reply, added: Option<User>)

  /** What one `register` call does, given the stored users, the id the new
      document gets, the hash function and the store's faults. A failed
      cast or a throwing hook rejects the save with an error that has no
      code. */
  function RegisterOutcome(users: seq<User>, id: nat, reg: Registration, hash: string -> string,
                           faults: StoreFaults): (r: Registered)
    ensures r.added.Some? ==> r.reply.Created? && r.reply.user == View(r.added.value)
    ensures r.added.Some? ==> r.added.value.id == id && !Taken(users, r.added.value.username, r.added.value.email)
    ensures r.added.None? ==> r.reply.Refused?
  {
    if faults.lookup.Some? then Registered(FailureReply(faults.lookup.value), None)
    else if Taken(users, reg.username, reg.email) then Registered(Conflict, None)
    else if NewUser(id, reg, hash).None? then Registered(FailureReply(DbError(None)), None)
    else if faults.save.Some? then Registered(FailureReply(faults.save.value), None)
    else
      var u := NewUser(id, reg, hash).value;
      Registered(Created(View(u)), Some(u))
  }

  /** An existing user with the same email or the same username gives 409
      and adds nobody. */
  lemma RegisterRejectsTaken(users: seq<User>, k: nat, id: nat, reg: Registration,
                             hash: string -> string, faults: StoreFaults)
    requires faults.lookup.None?
    requires k < |users| && (users[k].email == reg.email || users[k].username == reg.username)
    ensures RegisterOutcome(users, id, reg, hash, faults) == Registered(Conflict, None)
  {
  }

  /** A save that fails with the duplicate-key code gives 409; any other
      error, in the pre-check or in the save, gives 500; neither adds a
      user. */
  lemma RegisterFailures(users: seq<User>, id: nat, reg: Registration, hash: string -> string,
                         faults: StoreFaults)
    requires faults.lookup.Some? || faults.save.Some?
    ensures RegisterOutcome(users, id, reg, hash, faults).added.None?
    ensures faults.lookup.None? && !Taken(users, reg.username, reg.email) && Saveable(reg) ==>
              (StatusOf(RegisterOutcome(users, id, reg, hash, faults).reply) == 409 <==>
                 faults.save.value.code == Some(11000))
    ensures faults.lookup.Some? ==>
              (StatusOf(RegisterOutcome(users, id, reg, hash, faults).reply) == 500 <==>
                 faults.lookup.value.code != Some(11000))
  {
  }

  /** Addresses that fail to cast, or that make the hook throw, give 500
      and add nobody. */
  lemma RegisterUnsaveable(users: seq<User>, id: nat, reg: Registration, hash: string -> string,
                           faults: StoreFaults)
    requires faults.lookup.None? && !Taken(users, reg.username, reg.email)
    requires !Saveable(reg)
    ensures RegisterOutcome(users, id, reg, hash, faults) == Registered(ServerError, None)
  {
  }

  /** The three statuses, and 201 exactly when a user is added. */
  lemma RegisterStatus(users: seq<User>, id: nat, reg: Registration, hash: string -> string,
                       faults: StoreFaults)
    ensures var r := RegisterOutcome(users, id, reg, hash, faults);
            && StatusOf(r.reply) in {201, 409, 500}
            && (StatusOf(r.reply) == 201 <==> r.added.Some?)
            && (r.added.Some? <==>
                  faults.lookup.None? && faults.save.None? && !Taken(users, reg.username, reg.email) && Saveable(reg))
  {
  }

  /** On success the one added user has the hashed password, the
      normalised addresses and the sent fields; the reply shows exactly
      its id, username, email, fullName, role and addresses. */
  lemma RegisterSuccess(users: seq<User>, id: nat, reg: Registration, hash: string -> string,
                        faults: StoreFaults)
    requires RegisterOutcome(users, id, reg, hash, faults).added.Some?
    ensures var r := RegisterOutcome(users, id, reg, hash, faults);
            var u := r.added.value;
            && u.id == id && u.username == reg.username && u.email == reg.email
            && u.password == hash(reg.password)
            && u.fullName == reg.fullName
            && u.role == (if reg.role == Some(SellerRole) then SellerRole else UserRole)
            && reg.addresses.Some? && Some(u.addresses) == Normalize(reg.addresses.value)
            && r.reply.Created?
            && r.reply.user == UserView(u.id, u.username, u.email, u.fullName, u.role, u.addresses)
  {
  }

  /** A successful registration keeps usernames and emails unique. */
  lemma RegisterKeepsKeysUnique(users: seq<User>, id: nat, reg: Registration, hash: string -> string,
                                faults: StoreFaults)
    requires UniqueKeys(users)
    requires RegisterOutcome(users, id, reg, hash, faults).added.Some?
    ensures UniqueKeys(users + [RegisterOutcome(users, id, reg, hash, faults).added.value])
  {
    var u := RegisterOutcome(users, id, reg, hash, faults).added.value;
    var all := users + [u];
    forall i, j | 0 <= i < j < |all|
      ensures all[i].username != all[j].username && all[i].email != all[j].email
    {
      if j == |users| {
        assert all[i] == users[i];
      }
    }
  }

  /** The stored addresses satisfy the default-address rule. */
  lemma RegisterAddressesNormal(users: seq<User>, id: nat, reg: Registration, hash: string -> string,
                                faults: StoreFaults)
    requires RegisterOutcome(users, id, reg, hash, faults).added.Some?
    ensures var u := RegisterOutcome(users, id, reg, hash, faults).added.value;
            && reg.addresses.Some?
            && |u.addresses| == |reg.addresses.value|
            && (reg.addresses.value == [] ==> u.addresses == [])
            && (reg.addresses.value != [] ==> HasOneDefault(u.addresses))
  {
    NormalizeEstablishesOneDefault(reg.addresses.value);
  }

  /** Two addresses, neither marked default, and no fault: the user is
      added and the reply's first address is default, the second not. */
  lemma RegisterTwoPlainAddresses(users: seq<User>, id: nat, reg: Registration, hash: string -> string,
                                  a: Address, b: Address)
    requires reg.addresses == Some([Some(a), Some(b)]) && !a.isDefault && !b.isDefault
    requires !Taken(users, reg.username, reg.email)
    ensures var r := RegisterOutcome(users, id, reg, hash, StoreFaults(None, None));
            && r.added.Some? && r.reply.Created?
            && r.reply.user.addresses == [Some(a.(isDefault := true)), Some(b)]
  {
    NormalizeNoDefault([Some(a), Some(b)]);
  }

  /** An address with such an `isDefault` in the sent array makes `register`
      answer 500 and add nobody. */
  lemma RegisterRefusesBadIsDefault(users: seq<User>, id: nat, reg: Registration, hash: string -> string,
                                    items: seq<Json>, k: nat)
    requires reg.addresses == CastAll(items)
    requires k < |items| && BadIsDefault(items[k])
    requires !Taken(users, reg.username, reg.email)
    ensures RegisterOutcome(users, id, reg, hash, StoreFaults(None, None)) == Registered(ServerError, None)
  {
    CastAllRefusesBadIsDefault(items, k);
    RegisterUnsaveable(users, id, reg, hash, StoreFaults(None, None));
  }

  /** A `null` element in the sent array: first in a list with no default,
      the hook writes to it and the request fails with 500; later in the
      list it is kept as it is and the first address becomes default. */
  lemma RegisterMissingEntry(users: seq<User>, id: nat, reg: Registration, hash: string -> string,
                             a: Address)
    requires !a.isDefault && !Taken(users, reg.username, reg.email)
    ensures RegisterOutcome(users, id, reg.(addresses := Some([None, Some(a)])), hash, StoreFaults(None, None))
              == Registered(ServerError, None)
    ensures RegisterOutcome(users, id, reg.(addresses := Some([Some(a), None])), hash, StoreFaults(None, None))
              .reply.user.addresses == [Some(a.(isDefault := true)), None]
  {
    NoneCollectedIffNoDefault([None, Some(a)]);
    NormalizeNoDefault([Some(a), None]);
  }

  // ---------------------------------------------------------------------
  // The users collection
  // ---------------------------------------------------------------------

  /** The users collection as `register` sees it. */
  class UserStore {
    var users: seq<User>
    /** The id the next saved document gets. */
    var nextId: nat

    ghost predicate Valid()
      reads this
    {
      && (forall i :: 0 <= i < |users| ==> users[i].id < nextId)
      && (forall i, j :: 0 <= i < j < |users| ==> users[i].id != users[j].id)
      && UniqueKeys(users)
    }

    constructor ()
      ensures Valid() && users == [] && nextId == 0
    {
      users := [];
      nextId := 0;
    }

    /** The `register` controller on a parsed registration. */
    method Register(reg: Registration, hash: string -> string, faults: StoreFaults) returns (reply: Reply)
      requires Valid()
      modifies this
      ensures Valid()
      ensures var o := RegisterOutcome(old(users), old(nextId), reg, hash, faults);
              && reply == o.reply
              && users == old(users) + (if o.added.Some? then [o.added.value] else [])
              && nextId == old(nextId) + (if o.added.Some? then 1 else 0)
    {
      if faults.lookup.Some? {
        return FailureReply(faults.lookup.value);
      }
      if Taken(users, reg.username, reg.email) {
        return Conflict;
      }
      var hashedPassword := hash(reg.password);
      if reg.addresses.None? {
        return FailureReply(DbError(None));
      }
      var sent := reg.addresses.value;
      var addresses := new Entry[|sent|](i requires 0 <= i < |sent| => sent[i]);
      assert addresses[..] == sent;
      var hookOk := NormalizeAddresses(addresses);
      if !hookOk {
        return FailureReply(DbError(None));
      }
      var newUser := User(nextId, reg.username, reg.email, hashedPassword, reg.fullName,
                          reg.role.GetOr(UserRole), addresses[..]);
      assert Some(newUser) == NewUser(nextId, reg, hash);
      if faults.save.Some? {
        return FailureReply(faults.save.value);
      }
      RegisterKeepsKeysUnique(users, nextId, reg, hash, faults);
      users := users + [newUser];
      nextId := nextId + 1;
      reply := Created(View(newUser));
    }
  }
}
