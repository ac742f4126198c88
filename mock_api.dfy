/** The in-memory mock back end (mockApi.js): a fixed roster of users and a list of
    assignments held in module state. Login never fails and never admits anyone; a draw
    finds the giver by `userId`, and nothing is persisted. */
module MockApi {
  import opened Collections
  import opened JsText
  import opened JsMath

  datatype MockUser = MockUser(name: string, email: string, userId: string, hasPicked: bool)

  datatype MockAssignment = MockAssignment(
    giverId: string,
    giverName: string,
    recipientId: string,
    recipientName: string)

  /** The module state `{mockUsers, assignments}`. */
  datatype MockState = MockState(users: seq<MockUser>, assignments: seq<MockAssignment>)

  /** A login answer; the mock always reports success. */
  datatype MockLogin = MockLogin(alreadyPicked: bool, userId: string, name: string)

  datatype MockPickError = UserNotFound | AlreadyPicked | NoRecipients

  datatype MockPickResponse = Picked(recipient: string) | PickRejected(error: MockPickError)

  datatype MockOutcome = MockOutcome(response: MockPickResponse, state: MockState)

  /** The roster `mockUsers` starts with. */
  const Roster: seq<MockUser> := [
    MockUser("APAR SHARMA", "apar.sharma@walmart.com", "apar.sharma@walmart.com", false),
    MockUser("Dilip Kumar", "dilip.kumar2@walmart.com", "dilip.kumar2@walmart.com", false),
    MockUser("Gagan Vasanth", "gagan.vasanth@walmart.com", "gagan.vasanth@walmart.com", false),
    MockUser("Madhanraj G", "m.gunasekaran@walmart.com", "m.gunasekaran@walmart.com", false),
    MockUser("S Manikandan", "m.sivasubramanian@walmart.com", "m.sivasubramanian@walmart.com", false),
    MockUser("Neha Mohanty", "neha.mohanty@walmart.com", "neha.mohanty@walmart.com", false),
    MockUser("Nitin Mohan", "nitin.mohan@walmart.com", "nitin.mohan@walmart.com", false),
    MockUser("Poojitha B N", "poojitha.b.n@walmart.com", "poojitha.b.n@walmart.com", false),
    MockUser("Ritwij Bhattacharya", "ritwij.bhattacharya@walmart.com", "ritwij.bhattacharya@walmart.com", false),
    MockUser("Shruti Gupta", "shruti.gupta@walmart.com", "shruti.gupta@walmart.com", false),
    MockUser("Siva Prathap Reddy Chinta", "sivaprathapreddy.chi@walmart.com", "sivaprathapreddy.chi@walmart.com", false),
    MockUser("Swapnil Kumar", "swapnil.kumar@walmart.com", "swapnil.kumar@walmart.com", false),
    MockUser("Twinkle Benedict", "twinkle.benedict@walmart.com", "twinkle.benedict@walmart.com", false),
    MockUser("Vijayendra Mp", "vijayendra.mp@walmart.com", "vijayendra.mp@walmart.com", false),
    MockUser("Vinay Pareek", "vinay.pareek@walmart.com", "vinay.pareek@walmart.com", false),
    MockUser("Yuvan Shankar Karthick Shanmugavelu", "yuvan.shankar.karthick.shanmugavelu@walmart.com", "yuvan.shankar.karthick.shanmugavelu@walmart.com", false),
    MockUser("Aiswarya Anand S", "aiswarya.anands@walmart.com", "aiswarya.anands@walmart.com", false),
    MockUser("Arunkumar Ravichandran", "arunkumar.ravichandran1@walmart.com", "arunkumar.ravichandran1@walmart.com", false),
    MockUser("Balram Mirani", "balram.mirani@walmart.com", "balram.mirani@walmart.com", false),
    MockUser("Eshan Jain", "eshan.jain@walmart.com", "eshan.jain@walmart.com", false),
    MockUser("Karthik Gopal", "karthik.gopal@walmart.com", "karthik.gopal@walmart.com", false),
    MockUser("Mohamed Ashik", "mohamed.ashik@walmart.com", "mohamed.ashik@walmart.com", false),
    MockUser("Neha Jain", "neha.jain@walmart.com", "neha.jain@walmart.com", false),
    MockUser("Nishith Hebbur Mahesh", "nishith.hm@walmart.com", "nishith.hm@walmart.com", false),
    MockUser("Parth Goyal", "parth.goyal@walmart.com", "parth.goyal@walmart.com", false),
    MockUser("Pranav Sethi", "pranav.sethi@walmart.com", "pranav.sethi@walmart.com", false),
    MockUser("Saman Khan", "saman.khan@walmart.com", "saman.khan@walmart.com", false),
    MockUser("Shiva Sankaran Natarajan", "shiva.sankaran.natarajan@walmart.com", "shiva.sankaran.natarajan@walmart.com", false),
    MockUser("Shubham Bansal", "shubham.bansal@walmart.com", "shubham.bansal@walmart.com", false),
    MockUser("Sounak Pal", "sounak.pal@walmart.com", "sounak.pal@walmart.com", false),
    MockUser("Swati Pandey", "swati.pandey@walmart.com", "swati.pandey@walmart.com", false),
    MockUser("Sucharitha Chapparam", "sucharitha.chapparam@walmart.com", "sucharitha.chapparam@walmart.com", false),
    MockUser("Naveen Mansur", "naveen.mansur@walmart.com", "naveen.mansur@walmart.com", false)
  ]

  /** Nobody on the roster has picked at start. */
  lemma RosterUnpicked()
    ensures forall j :: 0 <= j < |Roster| ==> !Roster[j].hasPicked
  {
  }

  /** The name the mock reports for an email it does not know: the text before the first
      `@` with `.` and `_` turned into spaces, letter case untouched. */
  function GuestName(email: string): (r: string)
    ensures |r| == |LocalPart(email)| && '@' !in r && '.' !in r && '_' !in r
    ensures forall i :: 0 <= i < |r| ==>
      r[i] == Spaced(LocalPart(email)[i])
  {
    var local := LocalPart(email);
    var r := ReplaceSeparators(local);
    assert forall i :: 0 <= i < |r| ==> local[i] != '@';
    r
  }

  /** `mockValidateUser(email)`: the first roster user whose email equals `email` ignoring
      case, or a guest answer built from the email. */
  function Login(users: seq<MockUser>, email: string): (r: MockLogin)
    ensures forall j :: 0 <= j < |users| && Lower(users[j].email) == Lower(email) ==>
      exists i :: 0 <= i <= j && Lower(users[i].email) == Lower(email) &&
        r == MockLogin(users[i].hasPicked, users[i].userId, users[i].name)
    ensures (forall j :: 0 <= j < |users| ==> Lower(users[j].email) != Lower(email)) ==>
      r == MockLogin(false, Lower(email), GuestName(email))
  {
    match FirstIndex(users, (u: MockUser) => Lower(u.email) == Lower(email))
    case Some(i) => MockLogin(users[i].hasPicked, users[i].userId, users[i].name)
    case None => MockLogin(false, Lower(email), GuestName(email))
  }

  /** `assignments.map(a => a.recipientId)`. */
  function RecipientIds(assignments: seq<MockAssignment>): (r: seq<string>)
    ensures |r| == |assignments|
    ensures forall i :: 0 <= i < |r| ==> r[i] == assignments[i].recipientId
  {
    if assignments == [] then []
    else [assignments[0].recipientId] + RecipientIds(assignments[1..])
  }

  /** `available`: the roster users, in order, who are not the giver and whom nobody has
      drawn. */
  function MockCandidates(s: MockState, userId: string): (r: seq<MockUser>)
    ensures forall u :: u in r <==>
      u in s.users && u.userId != userId &&
      forall a :: a in s.assignments ==> a.recipientId != u.userId
    ensures forall u :: u in r ==> multiset(r)[u] == multiset(s.users)[u]
    ensures IsSubsequence(r, s.users)
  {
    var drawn := RecipientIds(s.assignments);
    assert forall x :: x in drawn <==> exists a :: a in s.assignments && a.recipientId == x;
    Filter(s.users, (u: MockUser) => u.userId != userId && u.userId !in drawn)
  }

  /** `mockPickRecipient(userId, name)` on state `s`, with `rand` the value `Math.random()`
      returned. */
  function MockPick(s: MockState, userId: string, name: string, rand: real): (out: MockOutcome)
    requires 0.0 <= rand < 1.0
    ensures out.response.PickRejected? ==> out.state == s
    ensures |out.state.users| == |s.users|
  {
    match FirstIndex(s.users, (u: MockUser) => u.userId == userId)
    case None => MockOutcome(PickRejected(UserNotFound), s)
    case Some(i) =>
      if s.users[i].hasPicked then MockOutcome(PickRejected(AlreadyPicked), s)
      else
        var available := MockCandidates(s, userId);
        if |available| == 0 then MockOutcome(PickRejected(NoRecipients), s)
        else
          var recipient := available[PickIndex(rand, |available|)];
          MockOutcome(
            Picked(recipient.name),
            MockState(
              s.users[i := s.users[i].(hasPicked := true)],
              s.assignments + [MockAssignment(userId, name, recipient.userId, recipient.name)]))
  }

  /** The three refusals of a mock draw, each exactly when its condition holds. */
  lemma MockPickRefusals(s: MockState, userId: string, name: string, rand: real)
    requires 0.0 <= rand < 1.0
    ensures var out := MockPick(s, userId, name, rand);
      var found := FirstIndex(s.users, (u: MockUser) => u.userId == userId);
      (out.response == PickRejected(UserNotFound) <==>
        forall j :: 0 <= j < |s.users| ==> s.users[j].userId != userId) &&
      (out.response == PickRejected(AlreadyPicked) <==>
        found.Some? && s.users[found.value].hasPicked) &&
      (out.response == PickRejected(NoRecipients) <==>
        found.Some? && !s.users[found.value].hasPicked && MockCandidates(s, userId) == [])
  {
  }

  /** A successful mock draw appends one assignment from `userId` to a roster user other
      than the giver whom nobody had drawn, and flips only the giver's `hasPicked`. */
  lemma MockPickEffects(s: MockState, userId: string, name: string, rand: real)
    requires 0.0 <= rand < 1.0
    requires MockPick(s, userId, name, rand).response.Picked?
    ensures var out := MockPick(s, userId, name, rand);
      var n := |s.assignments|;
      |out.state.assignments| == n + 1 && out.state.assignments[..n] == s.assignments &&
      var a := out.state.assignments[n];
      a.giverId == userId && a.giverName == name && a.recipientName == out.response.recipient &&
      a.recipientId != userId &&
      (forall b :: b in s.assignments ==> b.recipientId != a.recipientId) &&
      exists j :: 0 <= j < |s.users| &&
        s.users[j].userId == a.recipientId && s.users[j].name == a.recipientName
    ensures var out, i := MockPick(s, userId, name, rand),
        FirstIndex(s.users, (u: MockUser) => u.userId == userId).value;
      !s.users[i].hasPicked && out.state.users[i] == s.users[i].(hasPicked := true) &&
      forall j :: 0 <= j < |s.users| && j != i ==> out.state.users[j] == s.users[j]
  {
    var available := MockCandidates(s, userId);
    var recipient := available[PickIndex(rand, |available|)];
    assert recipient in available;
    var k :| 0 <= k < |s.users| && s.users[k] == recipient;
  }

  /** Every mock candidate can be drawn: the value `k / n` of `Math.random()` draws the
      k-th of the `n` candidates. */
  lemma MockEveryCandidateCanBeDrawn(s: MockState, userId: string, name: string, k: nat)
    requires FirstIndex(s.users, (u: MockUser) => u.userId == userId).Some?
    requires !s.users[FirstIndex(s.users, (u: MockUser) => u.userId == userId).value].hasPicked
    requires k < |MockCandidates(s, userId)|
    ensures var available := MockCandidates(s, userId);
      var rand := k as real / |available| as real;
      0.0 <= rand < 1.0 &&
      MockPick(s, userId, name, rand).response == Picked(available[k].name) &&
      MockPick(s, userId, name, rand).state.assignments[|s.assignments|].recipientId ==
        available[k].userId
  {
    var available := MockCandidates(s, userId);
    EveryIndexReachable(|available|, k);
  }

  predicate IsPicked(u: MockUser) { u.hasPicked }

  /** The mock state invariant: no user is drawn twice, nobody draws themselves, and there
      is one assignment per user marked as having picked. */
  ghost predicate MockValid(s: MockState)
  {
    DistinctBy(s.assignments, (a: MockAssignment) => a.recipientId) &&
    (forall a :: a in s.assignments ==> a.recipientId != a.giverId) &&
    |s.assignments| == |Filter(s.users, IsPicked)|
  }

  /** A roster nobody has picked from, with no assignments, satisfies the invariant. */
  lemma FreshStateValid(users: seq<MockUser>)
    requires forall j :: 0 <= j < |users| ==> !users[j].hasPicked
    ensures MockValid(MockState(users, []))
  {
    var unpicked := (u: MockUser) => !u.hasPicked;
    FilterKeepsAll(users, unpicked);
    FilterPartition(users, IsPicked, unpicked);
  }

  /** A mock draw keeps the invariant. */
  lemma {:induction false} MockPickKeepsValid(s: MockState, userId: string, name: string, rand: real)
    requires 0.0 <= rand < 1.0 && MockValid(s)
    ensures MockValid(MockPick(s, userId, name, rand).state)
  {
    var out := MockPick(s, userId, name, rand);
    if out.response.Picked? {
      MockPickEffects(s, userId, name, rand);
      var i := FirstIndex(s.users, (u: MockUser) => u.userId == userId).value;
      var n := |s.assignments|;
      var a := out.state.assignments[n];
      assert out.state.assignments == s.assignments + [a];
      AppendKeepsDistinct(s.assignments, a, (x: MockAssignment) => x.recipientId);
      var marked := s.users[i].(hasPicked := true);
      FilterUpdateGains(s.users, i, marked, IsPicked);
      assert out.state.users == s.users[i := marked];
    }
  }

  /** The `userId` login hands a roster user is one a draw recognises. */
  lemma LoginIdIsPickable(s: MockState, email: string, name: string, rand: real, j: nat)
    requires 0.0 <= rand < 1.0
    requires j < |s.users| && Lower(s.users[j].email) == Lower(email)
    ensures MockPick(s, Login(s.users, email).userId, name, rand).response != PickRejected(UserNotFound)
  {
    var id := Login(s.users, email).userId;
    var i :| 0 <= i <= j && Lower(s.users[i].email) == Lower(email) &&
      Login(s.users, email) == MockLogin(s.users[i].hasPicked, s.users[i].userId, s.users[i].name);
    MockPickRefusals(s, id, name, rand);
    assert s.users[i].userId == id;
  }

  /** The state the module starts in satisfies the invariant. */
  lemma InitialStateValid()
    ensures MockValid(MockState(Roster, []))
  {
    RosterUnpicked();
    FreshStateValid(Roster);
  }

  class MockBackend {
    var users: seq<MockUser>
    var assignments: seq<MockAssignment>

    function State(): MockState
      reads this
    {
      MockState(users, assignments)
    }

    /** The module state when mockApi.js is loaded. */
    constructor ()
      ensures State() == MockState(Roster, []) && MockValid(State())
    {
      users := Roster;
      assignments := [];
      new;
      RosterUnpicked();
      FreshStateValid(users);
    }

    /** `mockPickRecipient(userId, name)` on a backend that keeps the invariant. */
    method PickRecipient(userId: string, name: string, rand: real) returns (r: MockPickResponse)
      requires 0.0 <= rand < 1.0 && MockValid(State())
      modifies this
      ensures MockOutcome(r, State()) == MockPick(old(State()), userId, name, rand)
      ensures MockValid(State())
    {
      MockPickKeepsValid(State(), userId, name, rand);
      r := Draw(userId, name, rand);
    }

    /** The steps of `mockPickRecipient`: on success the assignment is pushed and the giver's
        record marked in place. */
    method Draw(userId: string, name: string, rand: real) returns (r: MockPickResponse)
      requires 0.0 <= rand < 1.0
      modifies this
      ensures MockOutcome(r, State()) == MockPick(old(State()), userId, name, rand)
    {
      var found := FirstIndex(users, (u: MockUser) => u.userId == userId);
      if found.None? {
        return PickRejected(UserNotFound);
      }
      var i := found.value;
      if users[i].hasPicked {
        return PickRejected(AlreadyPicked);
      }
      var available := MockCandidates(State(), userId);
      if |available| == 0 {
        return PickRejected(NoRecipients);
      }
      var recipient := available[PickIndex(rand, |available|)];
      assignments := assignments + [MockAssignment(userId, name, recipient.userId, recipient.name)];
      users := users[i := users[i].(hasPicked := true)];
      return Picked(recipient.name);
    }
  }
}
