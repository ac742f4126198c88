/** The document-based assignment engine (`DataManager` in dataManager.js): a document of
    users and assignments, login admission, the random recipient draw and the admin resets.
    Persistence is the whole document being written to storage; `Math.random()` and the
    clock are parameters. */
module Engine {
  import opened Collections
  import opened JsText
  import opened JsMath

  datatype User = User(email: string, name: string, hasPicked: bool, pickedRecipient: string)

  datatype Assignment = Assignment(
    giverEmail: string,
    giverName: string,
    recipientEmail: string,
    recipientName: string,
    timestamp: string)

  /** The persisted aggregate `{users, assignments}`. */
  datatype Document = Document(users: seq<User>, assignments: seq<Assignment>)

  datatype LoginError = AdminLogin | NotWalmartEmail

  datatype LoginResponse =
    | LoggedIn(alreadyPicked: bool, userId: string, name: string, pickedRecipient: Option<string>)
    | LoginRejected(error: LoginError)

  datatype PickError = UserNotFound | AlreadyPicked | NoRecipients

  datatype PickResponse = Picked(recipient: string) | PickRejected(error: PickError)

  datatype Stats = Stats(
    totalUsers: nat,
    usersWhoPickedCount: nat,
    usersRemaining: int,
    totalAssignments: nat)

  const AdminEmail: string := "admin@walmart.com"
  const CompanyDomain: string := "@walmart.com"

  /** `email.toLowerCase().trim()`: the key every operation looks a user up by. */
  function Key(email: string): (k: string)
    ensures |k| <= |email|
  {
    Trim(Lower(email))
  }

  /** The key is exactly the lower-cased e-mail with the white space before and after it
      removed: an infix of it, surrounded by white space only, that neither starts nor ends
      with white space. */
  lemma KeyIsTrimmed(email: string)
    ensures var k := Key(email);
      (exists i: nat :: TrimmedAt(Lower(email), k, i)) &&
      (k == [] || (!IsJsWhitespace(k[0]) && !IsJsWhitespace(k[|k| - 1])))
  {
  }

  /** The key is already lower case, so lower-casing it again (as `findUser` does) leaves
      it unchanged. */
  lemma KeyIsLowered(email: string)
    ensures Lower(Key(email)) == Key(email)
  {
    var lowered := Lower(email);
    LowerIsLowered(email);
    var k := Trim(lowered);
    assert IsLowered(k);
    LowerOfLowered(k);
  }

  /** The display name given to a newly admitted user: the text before the first `@` of
      the email as typed, with `.` and `_` turned into spaces and every word capitalised. */
  function DisplayName(email: string): (r: string)
    ensures |r| == |LocalPart(email)|
  {
    CapitalizeWords(ReplaceSeparators(LocalPart(email)))
  }

  /** The display name keeps one character per character of the local part, contains no
      `@`, `.` or `_`, and differs from the local part (with separators turned into spaces)
      only in letter case. */
  lemma DisplayNameChars(email: string)
    ensures var r, local := DisplayName(email), LocalPart(email);
      |r| == |local| && '@' !in r && '.' !in r && '_' !in r &&
      forall i :: 0 <= i < |r| ==> LowerChar(r[i]) == LowerChar(Spaced(local[i]))
  {
    var local := LocalPart(email);
    var spaced := ReplaceSeparators(local);
    var r := CapitalizeWords(spaced);
    forall i | 0 <= i < |r|
      ensures r[i] != '@' && r[i] != '.' && r[i] != '_'
      ensures LowerChar(r[i]) == LowerChar(Spaced(local[i]))
    {
      assert local[i] in local;
      assert spaced[i] == Spaced(local[i]);
    }
  }

  /** Every word of the display name starts with a character that is not a lower-case
      letter, and every other character is the local part's (separators turned into
      spaces). */
  lemma DisplayNameWords(email: string)
    ensures var r, local := DisplayName(email), LocalPart(email);
      |r| == |local| &&
      forall i {:trigger IsWordStart(r, i)} :: 0 <= i < |r| ==>
        if IsWordStart(r, i) then !IsAsciiLower(r[i]) else r[i] == Spaced(local[i])
  {
    var local := LocalPart(email);
    var spaced := ReplaceSeparators(local);
    var r := CapitalizeWords(spaced);
    forall i | 0 <= i < |r|
      ensures IsWordStart(r, i) == IsWordStart(spaced, i)
      ensures spaced[i] == Spaced(local[i])
    {
      if i > 0 {
        assert IsWordChar(r[i - 1]) == IsWordChar(spaced[i - 1]);
      }
    }
  }

  /** The record `validateUser` appends for an unknown company email. */
  function NewUser(email: string): User
  {
    User(Lower(email), DisplayName(email), false, "")
  }

  predicate HasKey(u: User, key: string)
  {
    Lower(u.email) == key
  }

  /** `users.findIndex(u => u.email.toLowerCase() === key)`. */
  function IndexOfKey(users: seq<User>, key: string): (r: Option<nat>)
    ensures r.Some? ==> r.value < |users| && HasKey(users[r.value], key)
    ensures r.Some? ==> forall j :: 0 <= j < r.value ==> !HasKey(users[j], key)
    ensures r.None? <==> forall j :: 0 <= j < |users| ==> !HasKey(users[j], key)
  {
    FirstIndex(users, (u: User) => HasKey(u, key))
  }

  /** `alreadyAssignedEmails`: the lower-cased emails of everyone already drawn. */
  function AssignedRecipients(assignments: seq<Assignment>): (r: set<string>)
    ensures forall a :: a in assignments ==> Lower(a.recipientEmail) in r
    ensures forall k :: k in r ==> exists a :: a in assignments && Lower(a.recipientEmail) == k
  {
    set a | a in assignments :: Lower(a.recipientEmail)
  }

  predicate Eligible(u: User, giverKey: string, drawn: set<string>)
  {
    Lower(u.email) != giverKey && Lower(u.email) !in drawn
  }

  /** `availableRecipients`: the users, in document order, who are not the giver and
      whom nobody has drawn yet. */
  function Candidates(users: seq<User>, assignments: seq<Assignment>, giverKey: string): (r: seq<User>)
    ensures forall u :: u in r <==>
      u in users && Lower(u.email) != giverKey && Lower(u.email) !in AssignedRecipients(assignments)
    ensures forall u :: u in r ==> multiset(r)[u] == multiset(users)[u]
    ensures IsSubsequence(r, users)
  {
    var drawn := AssignedRecipients(assignments);
    Filter(users, (u: User) => Eligible(u, giverKey, drawn))
  }

  /** The assignment invariants: no recipient is drawn twice and nobody draws themselves
      (emails compared ignoring case). */
  ghost predicate ValidAssignments(s: seq<Assignment>)
  {
    DistinctBy(s, (a: Assignment) => Lower(a.recipientEmail)) &&
    forall a :: a in s ==> Lower(a.recipientEmail) != Lower(a.giverEmail)
  }

  /** The assignments `resetUserAssignment` keeps: those whose giver is not `key`. */
  function WithoutGiver(assignments: seq<Assignment>, key: string): (r: seq<Assignment>)
    ensures forall a :: a in r <==> a in assignments && Lower(a.giverEmail) != key
    ensures forall a :: a in assignments && Lower(a.giverEmail) != key ==>
      multiset(r)[a] == multiset(assignments)[a]
    ensures IsSubsequence(r, assignments)
  {
    Filter(assignments, (a: Assignment) => Lower(a.giverEmail) != key)
  }

  function Cleared(u: User): User
  {
    u.(hasPicked := false, pickedRecipient := "")
  }

  /** A response together with the document an operation leaves behind. */
  datatype Outcome<R> = Outcome(response: R, doc: Document)

  // ---------------------------------------------------------------------------------
  // validateUser

  /** `validateUser(email)` on document `doc`. */
  function Validate(doc: Document, email: string): (out: Outcome<LoginResponse>)
    ensures out.doc.assignments == doc.assignments
    ensures out.response.LoginRejected? ==> out.doc == doc
    ensures out.doc == doc || out.doc.users == doc.users + [NewUser(email)]
  {
    Admission(doc, Key(email), Lower(email), Contains(Lower(email), CompanyDomain), DisplayName(email))
  }

  /** The decision `validateUser` takes once it has computed the lookup key `key`, the
      lower-cased email `lowered`, whether `lowered` contains the company domain, and the
      display name `name` a new user would get. */
  function Admission(doc: Document, key: string, lowered: string, isCompany: bool, name: string)
    : (out: Outcome<LoginResponse>)
    ensures out.doc.assignments == doc.assignments
    ensures out.response.LoginRejected? ==> out.doc == doc
    ensures out.doc == doc || out.doc.users == doc.users + [User(lowered, name, false, "")]
    ensures out.response.LoggedIn? <==> key != AdminEmail && (IndexOfKey(doc.users, key).Some? || isCompany)
  {
    if key == AdminEmail then Outcome(LoginRejected(AdminLogin), doc)
    else match IndexOfKey(doc.users, key)
      case Some(i) =>
        var u := doc.users[i];
        Outcome(LoggedIn(u.hasPicked, u.email, u.name, Some(u.pickedRecipient)), doc)
      case None =>
        if isCompany && key != AdminEmail then
          Outcome(LoggedIn(false, lowered, name, None),
                  Document(doc.users + [User(lowered, name, false, "")], doc.assignments))
        else
          Outcome(LoginRejected(NotWalmartEmail), doc)
  }

  /** A login is accepted exactly when the key is not the admin's and the user is known or
      the e-mail contains the company domain. */
  lemma ValidateOutcomes(doc: Document, email: string)
    ensures Validate(doc, email).response.LoggedIn? <==>
      Key(email) != AdminEmail &&
      (IndexOfKey(doc.users, Key(email)).Some? || Contains(Lower(email), CompanyDomain))
  {
  }

  /** A login whose email matches a stored one, ignoring case, reports that user's state
      and changes nothing. */
  lemma KnownUserLogin(doc: Document, email: string, i: nat)
    requires Key(email) != AdminEmail && IndexOfKey(doc.users, Key(email)) == Some(i)
    ensures var u := doc.users[i];
      Validate(doc, email) ==
        Outcome(LoggedIn(u.hasPicked, u.email, u.name, Some(u.pickedRecipient)), doc)
  {
  }

  /** An unknown company email is admitted as one new unpicked user, appended at the end. */
  lemma NewCompanyUserAdmitted(doc: Document, email: string)
    requires Key(email) != AdminEmail && IndexOfKey(doc.users, Key(email)).None?
    requires Contains(Lower(email), CompanyDomain)
    ensures var out := Validate(doc, email);
      out.doc.users == doc.users + [NewUser(email)] &&
      out.response == LoggedIn(false, Lower(email), DisplayName(email), None)
  {
  }

  /** The two refusals: the admin address, and an unknown email outside the company domain. */
  lemma LoginRefusals(doc: Document, email: string)
    ensures Validate(doc, email).response == LoginRejected(AdminLogin) <==> Key(email) == AdminEmail
    ensures Validate(doc, email).response == LoginRejected(NotWalmartEmail) <==>
      Key(email) != AdminEmail && IndexOfKey(doc.users, Key(email)).None? &&
      !Contains(Lower(email), CompanyDomain)
  {
  }

  /** A second identical admission decision, on the document the first one left, changes
      nothing and reports the same user, provided the stored email matches the key. */
  lemma {:induction false} AdmissionIdempotent(
    doc: Document, key: string, lowered: string, isCompany: bool, name: string)
    requires Lower(lowered) == key
    ensures var first := Admission(doc, key, lowered, isCompany, name);
      var second := Admission(first.doc, key, lowered, isCompany, name);
      second.doc == first.doc &&
      (first.response.LoggedIn? ==>
        second.response.LoggedIn? &&
        second.response.alreadyPicked == first.response.alreadyPicked &&
        second.response.userId == first.response.userId &&
        second.response.name == first.response.name)
  {
    var first := Admission(doc, key, lowered, isCompany, name);
    if first.doc != doc {
      var u := User(lowered, name, false, "");
      FoundAtEnd(doc.users, u, key);
      assert first.doc.users[|doc.users|] == u;
    }
  }

  /** Logging in twice with an email typed without surrounding white space admits the user
      at most once: the second login changes nothing and reports the same user. */
  lemma {:induction false} LoginIsIdempotent(doc: Document, email: string)
    requires Key(email) == Lower(email)
    ensures var first := Validate(doc, email);
      var second := Validate(first.doc, email);
      second.doc == first.doc &&
      (first.response.LoggedIn? ==>
        second.response.LoggedIn? &&
        second.response.alreadyPicked == first.response.alreadyPicked &&
        second.response.userId == first.response.userId &&
        second.response.name == first.response.name)
  {
    LowerIdempotent(email);
    AdmissionIdempotent(doc, Key(email), Lower(email), Contains(Lower(email), CompanyDomain),
      DisplayName(email));
  }

  /** An email typed with surrounding white space is stored untrimmed, so the lookup by the
      trimmed key misses it and every such login appends the user again. */
  lemma {:induction false} UntrimmedLoginAdmitsAgain(doc: Document, email: string)
    requires Key(email) != AdminEmail && Key(email) != Lower(email)
    requires IndexOfKey(doc.users, Key(email)).None? && Contains(Lower(email), CompanyDomain)
    ensures var first := Validate(doc, email);
      |Validate(first.doc, email).doc.users| == |doc.users| + 2
  {
    LowerIdempotent(email);
    AdmissionRepeats(doc, Key(email), Lower(email), DisplayName(email));
  }

  /** An admission whose stored email does not match the key admits the user again on the
      next identical call. */
  lemma {:induction false} AdmissionRepeats(doc: Document, key: string, lowered: string, name: string)
    requires key != AdminEmail && Lower(lowered) != key && IndexOfKey(doc.users, key).None?
    ensures var first := Admission(doc, key, lowered, true, name);
      |Admission(first.doc, key, lowered, true, name).doc.users| == |doc.users| + 2
  {
    StillMissing(doc.users, User(lowered, name, false, ""), key);
  }

  /** The first user matching `key` in `users + [u]` when only `u` matches. */
  lemma {:induction false} FoundAtEnd(users: seq<User>, u: User, key: string)
    requires IndexOfKey(users, key).None? && HasKey(u, key)
    ensures IndexOfKey(users + [u], key) == Some(|users|)
  {
    var s := users + [u];
    assert HasKey(s[|users|], key);
    assert forall j :: 0 <= j < |users| ==> s[j] == users[j];
  }

  /** Appending a record that does not match `key` does not make `key` findable. */
  lemma StillMissing(users: seq<User>, u: User, key: string)
    requires IndexOfKey(users, key).None? && !HasKey(u, key)
    ensures IndexOfKey(users + [u], key).None?
  {
    var s := users + [u];
    assert forall j :: 0 <= j < |users| ==> s[j] == users[j];
  }

  /** An email typed with a leading space is such an email: its key differs from its
      lower-cased form. */
  lemma LeadingSpaceIsUntrimmed(email: string)
    requires email != [] && email[0] == ' '
    ensures Key(email) != Lower(email)
  {
    var lowered := Lower(email);
    assert IsJsWhitespace(lowered[0]);
    assert |Trim(lowered)| < |lowered|;
  }

  // ---------------------------------------------------------------------------------
  // pickRecipient

  /** `pickRecipient(email, name)` on document `doc` once the giver's key `key` has been
      computed from `email`; `rand` is the value `Math.random()` returned and `timestamp`
      the current time. */
  function Pick(doc: Document, key: string, name: string, rand: real, timestamp: string)
    : (out: Outcome<PickResponse>)
    requires 0.0 <= rand < 1.0
    ensures out.response.PickRejected? ==> out.doc == doc
    ensures |out.doc.users| == |doc.users|
  {
    match IndexOfKey(doc.users, key)
    case None => Outcome(PickRejected(UserNotFound), doc)
    case Some(i) =>
      if doc.users[i].hasPicked then Outcome(PickRejected(AlreadyPicked), doc)
      else
        var available := Candidates(doc.users, doc.assignments, key);
        if |available| == 0 then Outcome(PickRejected(NoRecipients), doc)
        else
          var recipient := available[PickIndex(rand, |available|)];
          Outcome(
            Picked(recipient.name),
            Document(
              doc.users[i := doc.users[i].(hasPicked := true, pickedRecipient := recipient.name)],
              doc.assignments + [Assignment(key, name, recipient.email, recipient.name, timestamp)]))
  }

  /** The three refusals of a draw, each exactly when its condition holds. */
  lemma PickRefusals(doc: Document, key: string, name: string, rand: real, timestamp: string)
    requires 0.0 <= rand < 1.0
    ensures var out, found := Pick(doc, key, name, rand, timestamp), IndexOfKey(doc.users, key);
      (out.response == PickRejected(UserNotFound) <==> found.None?) &&
      (out.response == PickRejected(AlreadyPicked) <==>
        found.Some? && doc.users[found.value].hasPicked) &&
      (out.response == PickRejected(NoRecipients) <==>
        found.Some? && !doc.users[found.value].hasPicked &&
        Candidates(doc.users, doc.assignments, key) == [])
  {
  }

  /** A successful draw appends exactly one assignment, given by `key` and naming an
      existing user who is not the giver and whom nobody had drawn. */
  lemma PickAppendsAssignment(doc: Document, key: string, name: string, rand: real, timestamp: string)
    requires 0.0 <= rand < 1.0
    requires Pick(doc, key, name, rand, timestamp).response.Picked?
    ensures var out := Pick(doc, key, name, rand, timestamp);
      var n := |doc.assignments|;
      |out.doc.assignments| == n + 1 && out.doc.assignments[..n] == doc.assignments
    ensures var out := Pick(doc, key, name, rand, timestamp);
      var a := out.doc.assignments[|doc.assignments|];
      a.giverEmail == key && a.giverName == name && a.timestamp == timestamp &&
      a.recipientName == out.response.recipient &&
      Lower(a.recipientEmail) != Lower(a.giverEmail) &&
      Lower(a.recipientEmail) !in AssignedRecipients(doc.assignments) &&
      exists j :: 0 <= j < |doc.users| &&
        doc.users[j].email == a.recipientEmail && doc.users[j].name == a.recipientName
  {
    var available := Candidates(doc.users, doc.assignments, key);
    var recipient := available[PickIndex(rand, |available|)];
    assert recipient in available;
    var k :| 0 <= k < |doc.users| && doc.users[k] == recipient;
    // The giver was found, so the key is a lower-cased e-mail and thus lower case.
    LowerIdempotent(doc.users[IndexOfKey(doc.users, key).value].email);
  }

  /** A successful draw marks the giver as having picked, records the recipient's name on
      them, and changes no other user. */
  lemma PickUpdatesGiver(doc: Document, key: string, name: string, rand: real, timestamp: string)
    requires 0.0 <= rand < 1.0
    requires Pick(doc, key, name, rand, timestamp).response.Picked?
    ensures var out, i := Pick(doc, key, name, rand, timestamp), IndexOfKey(doc.users, key).value;
      !doc.users[i].hasPicked &&
      out.doc.users[i] == doc.users[i].(hasPicked := true, pickedRecipient := out.response.recipient) &&
      forall j :: 0 <= j < |doc.users| && j != i ==> out.doc.users[j] == doc.users[j]
  {
  }

  /** A draw keeps the assignment invariants. */
  lemma {:induction false} PickKeepsValid(
    doc: Document, key: string, name: string, rand: real, timestamp: string)
    requires 0.0 <= rand < 1.0
    requires ValidAssignments(doc.assignments)
    ensures ValidAssignments(Pick(doc, key, name, rand, timestamp).doc.assignments)
  {
    var out := Pick(doc, key, name, rand, timestamp);
    if out.response.Picked? {
      PickAppendsAssignment(doc, key, name, rand, timestamp);
      var a := out.doc.assignments[|doc.assignments|];
      assert out.doc.assignments == doc.assignments + [a];
      assert forall b :: b in doc.assignments ==> Lower(b.recipientEmail) in AssignedRecipients(doc.assignments);
      AppendKeepsDistinct(doc.assignments, a, (x: Assignment) => Lower(x.recipientEmail));
    }
  }

  /** Every candidate can be drawn: the value `k / n` of `Math.random()` draws the k-th of
      the `n` candidates. */
  lemma EveryCandidateCanBeDrawn(doc: Document, key: string, name: string, timestamp: string, k: nat)
    requires IndexOfKey(doc.users, key).Some?
    requires !doc.users[IndexOfKey(doc.users, key).value].hasPicked
    requires k < |Candidates(doc.users, doc.assignments, key)|
    ensures var available := Candidates(doc.users, doc.assignments, key);
      var rand := k as real / |available| as real;
      0.0 <= rand < 1.0 &&
      Pick(doc, key, name, rand, timestamp).response == Picked(available[k].name) &&
      Pick(doc, key, name, rand, timestamp).doc.assignments[|doc.assignments|].recipientEmail ==
        available[k].email
  {
    var available := Candidates(doc.users, doc.assignments, key);
    EveryIndexReachable(|available|, k);
  }

  // ---------------------------------------------------------------------------------
  // resetUserAssignment

  /** `resetUserAssignment(email)` on document `doc`, once the key `key` has been computed
      from `email`. */
  function ResetUser(doc: Document, key: string): (d: Document)
    ensures |d.users| == |doc.users|
    ensures forall j :: 0 <= j < |doc.users| ==>
      d.users[j].email == doc.users[j].email && d.users[j].name == doc.users[j].name
  {
    var users := match IndexOfKey(doc.users, key)
      case None => doc.users
      case Some(i) => doc.users[i := Cleared(doc.users[i])];
    Document(users, WithoutGiver(doc.assignments, key))
  }

  /** The first user matching the key is cleared and no other user changes (none, for an
      unknown key); the assignments left are exactly those another user gave. */
  lemma ResetUserEffects(doc: Document, key: string)
    ensures var d, found := ResetUser(doc, key), IndexOfKey(doc.users, key);
      (found.None? ==> d.users == doc.users) &&
      (found.Some? ==> !d.users[found.value].hasPicked && d.users[found.value].pickedRecipient == "") &&
      (forall j :: 0 <= j < |doc.users| && found != Some(j) ==> d.users[j] == doc.users[j])
    ensures forall a :: a in ResetUser(doc, key).assignments <==>
      a in doc.assignments && Lower(a.giverEmail) != key
  {
  }

  /** Resetting a user keeps the assignment invariants. */
  lemma {:induction false} ResetUserKeepsValid(doc: Document, key: string)
    requires ValidAssignments(doc.assignments)
    ensures ValidAssignments(ResetUser(doc, key).assignments)
  {
    FilterKeepsDistinct(doc.assignments, (a: Assignment) => Lower(a.giverEmail) != key,
      (a: Assignment) => Lower(a.recipientEmail));
  }

  /** Resetting a user who holds no pick and gave no assignment changes nothing. */
  lemma {:induction false} ResetOfUnpickedIsNoOp(doc: Document, key: string)
    requires forall a :: a in doc.assignments ==> Lower(a.giverEmail) != key
    requires IndexOfKey(doc.users, key).Some? ==>
      var u := doc.users[IndexOfKey(doc.users, key).value];
      !u.hasPicked && u.pickedRecipient == ""
    ensures ResetUser(doc, key) == doc
  {
    FilterKeepsAll(doc.assignments, (a: Assignment) => Lower(a.giverEmail) != key);
  }

  /** Resetting the same user twice is resetting them once. */
  lemma ResetUserIdempotent(doc: Document, key: string)
    ensures ResetUser(ResetUser(doc, key), key) == ResetUser(doc, key)
  {
    var d := ResetUser(doc, key);
    ResetUserEffects(doc, key);
    if IndexOfKey(doc.users, key).Some? {
      SameKeyIndex(doc.users, d.users, key, IndexOfKey(doc.users, key).value);
    }
    ResetOfUnpickedIsNoOp(d, key);
  }

  /** Resetting a user who had not drawn yet right after their draw restores the document. */
  lemma {:induction false} ResetUndoesPick(
    doc: Document, key: string, name: string, rand: real, timestamp: string)
    requires 0.0 <= rand < 1.0
    requires forall a :: a in doc.assignments ==> Lower(a.giverEmail) != key
    requires IndexOfKey(doc.users, key).Some? ==>
      var u := doc.users[IndexOfKey(doc.users, key).value];
      !u.hasPicked && u.pickedRecipient == ""
    ensures ResetUser(Pick(doc, key, name, rand, timestamp).doc, key) == doc
  {
    var out := Pick(doc, key, name, rand, timestamp);
    if out.response.Picked? {
      PickAppendsAssignment(doc, key, name, rand, timestamp);
      PickUpdatesGiver(doc, key, name, rand, timestamp);
      var i := IndexOfKey(doc.users, key).value;
      LowerIdempotent(doc.users[i].email);
      var a := out.doc.assignments[|doc.assignments|];
      assert out.doc.assignments == doc.assignments + [a];
      ResetAfterOneDraw(doc, out.doc, key, i, a);
    } else {
      ResetOfUnpickedIsNoOp(doc, key);
    }
  }

  /** Resetting `key` in a document `d` that differs from `doc` only by one assignment
      given by `key` and by the pick recorded on the user `key` finds first. */
  lemma ResetAfterOneDraw(doc: Document, d: Document, key: string, i: nat, a: Assignment)
    requires forall b :: b in doc.assignments ==> Lower(b.giverEmail) != key
    requires Lower(a.giverEmail) == key && d.assignments == doc.assignments + [a]
    requires IndexOfKey(doc.users, key) == Some(i)
    requires !doc.users[i].hasPicked && doc.users[i].pickedRecipient == ""
    requires |d.users| == |doc.users| && d.users[i].email == doc.users[i].email
    requires d.users[i].name == doc.users[i].name
    requires forall j :: 0 <= j < |doc.users| && j != i ==> d.users[j] == doc.users[j]
    ensures ResetUser(d, key) == doc
  {
    RestoreAssignments(doc.assignments, a, key);
    SameKeyIndex(doc.users, d.users, key, i);
    assert d.users[i := Cleared(d.users[i])] == doc.users;
  }

  /** Dropping the assignments given by `key` from `s + [a]`, where `a` is given by `key`
      and no assignment of `s` is, gives back `s`. */
  lemma {:induction false} RestoreAssignments(s: seq<Assignment>, a: Assignment, key: string)
    requires forall b :: b in s ==> Lower(b.giverEmail) != key
    requires Lower(a.giverEmail) == key
    ensures WithoutGiver(s + [a], key) == s
  {
    var keep := (b: Assignment) => Lower(b.giverEmail) != key;
    FilterKeepsAll(s, keep);
    FilterAppend(s, [a], keep);
    assert Filter([a], keep) == [];
  }

  /** Two user lists that agree everywhere except at `i`, where both records carry the same
      email, have `i` as the first match of `key` together. */
  lemma SameKeyIndex(users: seq<User>, users': seq<User>, key: string, i: nat)
    requires |users'| == |users| && IndexOfKey(users, key) == Some(i)
    requires users'[i].email == users[i].email
    requires forall j :: 0 <= j < |users| && j != i ==> users'[j] == users[j]
    ensures IndexOfKey(users', key) == Some(i)
  {
    assert HasKey(users'[i], key);
    assert forall j :: 0 <= j < i ==> users'[j] == users[j];
  }

  // ---------------------------------------------------------------------------------
  // getStats

  /** Users who have not picked, counted as `getStats` reports them. */
  lemma {:induction false} RemainingAreUnpicked(users: seq<User>)
    ensures |users| - |Filter(users, (u: User) => u.hasPicked)| ==
            |Filter(users, (u: User) => !u.hasPicked)|
  {
    FilterPartition(users, (u: User) => u.hasPicked, (u: User) => !u.hasPicked);
  }

  class DataManager {
    var users: seq<User>
    var assignments: seq<Assignment>
    /** The document as last written to storage. */
    var persisted: Document

    function Doc(): Document
      reads this
    {
      Document(users, assignments)
    }

    /** The manager once `init()` has loaded `doc`. */
    constructor (doc: Document)
      ensures Doc() == doc && persisted == doc
    {
      users := doc.users;
      assignments := doc.assignments;
      persisted := doc;
    }

    /** `saveToAPI`: the whole current document goes to storage. */
    method Save()
      modifies this`persisted
      ensures persisted == Doc()
    {
      persisted := Document(users, assignments);
    }

    /** `resetData`: the document is replaced by the seed storage supplies. */
    method ResetData(seed: Document)
      modifies this
      ensures Doc() == seed && persisted == seed
    {
      users := seed.users;
      assignments := seed.assignments;
      persisted := seed;
    }

    /** `findUser(email)`: the first user whose email equals `email` ignoring case. */
    function FindUser(email: string): (r: Option<User>)
      reads this
      ensures r.Some? ==> r.value in users && Lower(r.value.email) == Lower(email)
      ensures r.Some? ==>
        exists i :: 0 <= i < |users| && r.value == users[i] &&
          (forall j :: 0 <= j < i ==> Lower(users[j].email) != Lower(email))
      ensures r.None? <==> forall u :: u in users ==> Lower(u.email) != Lower(email)
    {
      match IndexOfKey(users, Lower(email))
      case None => None
      case Some(i) => Some(users[i])
    }

    /** `getStats`, without its percentage. */
    function GetStats(): (s: Stats)
      reads this
      ensures s.totalUsers == |users| && s.totalAssignments == |assignments|
      ensures s.usersWhoPickedCount <= s.totalUsers
      ensures s.usersWhoPickedCount == 0 <==> forall u :: u in users ==> !u.hasPicked
      ensures s.usersWhoPickedCount == |Filter(users, (u: User) => u.hasPicked)|
      ensures s.usersRemaining == s.totalUsers - s.usersWhoPickedCount
      ensures s.usersRemaining == |Filter(users, (u: User) => !u.hasPicked)|
    {
      var picked := Filter(users, (u: User) => u.hasPicked);
      RemainingAreUnpicked(users);
      assert picked != [] ==> picked[0] in picked;
      Stats(|users|, |picked|, |users| - |picked|, |assignments|)
    }

    /** `validateUser(email)`; the document is saved only when a user is admitted. */
    method ValidateUser(email: string) returns (r: LoginResponse)
      modifies this
      ensures Outcome(r, Doc()) == Validate(old(Doc()), email)
      ensures persisted == if |users| == |old(users)| then old(persisted) else Doc()
    {
      var emailLower := Key(email);
      KeyIsLowered(email);
      r := Admit(emailLower, Lower(email), Contains(Lower(email), CompanyDomain), DisplayName(email));
    }

    /** The branches of `validateUser` once the key `key`, the lower-cased e-mail `lowered`,
        the domain test and the display name `name` are known; an admitted user is pushed
        and the document saved. */
    method Admit(key: string, lowered: string, isCompany: bool, name: string) returns (r: LoginResponse)
      requires Lower(key) == key
      modifies this
      ensures Outcome(r, Doc()) == Admission(old(Doc()), key, lowered, isCompany, name)
      ensures persisted == if |users| == |old(users)| then old(persisted) else Doc()
    {
      if key == AdminEmail {
        return LoginRejected(AdminLogin);
      }
      var user := FindUser(key);
      if user.Some? {
        var u := user.value;
        return LoggedIn(u.hasPicked, u.email, u.name, Some(u.pickedRecipient));
      }
      if isCompany && key != AdminEmail {
        users := users + [User(lowered, name, false, "")];
        Save();
        return LoggedIn(false, lowered, name, None);
      }
      return LoginRejected(NotWalmartEmail);
    }

    /** `pickRecipient(email, name)`; the document is saved only after a draw. */
    method PickRecipient(email: string, name: string, rand: real, timestamp: string)
      returns (r: PickResponse)
      requires 0.0 <= rand < 1.0
      modifies this
      ensures Outcome(r, Doc()) == Pick(old(Doc()), Key(email), name, rand, timestamp)
      ensures persisted == if r.Picked? then Doc() else old(persisted)
    {
      var emailLower := Key(email);
      var userIndex := IndexOfKey(users, emailLower);
      if userIndex.None? {
        return PickRejected(UserNotFound);
      }
      var i := userIndex.value;
      if users[i].hasPicked {
        return PickRejected(AlreadyPicked);
      }
      var available := Candidates(users, assignments, emailLower);
      if |available| == 0 {
        return PickRejected(NoRecipients);
      }
      var recipient := available[PickIndex(rand, |available|)];
      Record(i, Assignment(emailLower, name, recipient.email, recipient.name, timestamp));
      return Picked(recipient.name);
    }

    /** The update a successful draw makes: the assignment is pushed, the giver at index
        `i` is marked with the recipient's name, and the document is saved. */
    method Record(i: nat, assignment: Assignment)
      requires i < |users|
      modifies this
      ensures users == old(users)[i := old(users)[i].(hasPicked := true,
        pickedRecipient := assignment.recipientName)]
      ensures assignments == old(assignments) + [assignment]
      ensures persisted == Doc()
    {
      assignments := assignments + [assignment];
      users := users[i := users[i].(hasPicked := true, pickedRecipient := assignment.recipientName)];
      Save();
    }

    /** `resetUserAssignment(email)`; the document is always saved. */
    method ResetUserAssignment(email: string)
      modifies this
      ensures Doc() == ResetUser(old(Doc()), Key(email)) && persisted == Doc()
    {
      var emailLower := Key(email);
      var userIndex := IndexOfKey(users, emailLower);
      if userIndex.Some? {
        var i := userIndex.value;
        users := users[i := users[i].(hasPicked := false, pickedRecipient := "")];
      }
      assignments := WithoutGiver(assignments, emailLower);
      Save();
    }

    /** `resetAllAssignments()`: every user's pick is cleared, one record at a time, and the
        assignment list emptied; the users themselves, their order, emails and names stay. */
    method ResetAllAssignments()
      modifies this
      ensures |users| == |old(users)|
      ensures forall i :: 0 <= i < |users| ==> users[i] == Cleared(old(users)[i])
      ensures assignments == [] && persisted == Doc()
      ensures GetStats().usersWhoPickedCount == 0 && GetStats().usersRemaining == |users|
    {
      var i := 0;
      while i < |users|
        invariant 0 <= i <= |users| == |old(users)|
        invariant forall j :: 0 <= j < i ==> users[j] == Cleared(old(users)[j])
        invariant forall j :: i <= j < |users| ==> users[j] == old(users)[j]
      {
        users := users[i := users[i].(hasPicked := false, pickedRecipient := "")];
        i := i + 1;
      }
      assignments := [];
      Save();
      FilterKeepsAll(users, (u: User) => !u.hasPicked);
    }
  }
}
