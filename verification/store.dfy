/**
 * The in-memory note store shared by the five request handlers: users by
 * email, sessions by token, note lists by owner email, and the `uint32`
 * note-id counter. Each handler's work under the store lock is one method;
 * the lock itself and the JSON request/response plumbing are not modelled.
 */
module NoteStore {
  import opened Uint32
  import opened Decimal
  import opened Notes

  /** A registered user, stored under its own email. */
  datatype User = User(name: string, email: string, password: string)

  /** A session: the email of the user who logged in. */
  datatype Session = Session(userEmail: string)

  /** What a handler answers once it holds the lock. */
  datatype Outcome =
    | Ok                      // signup and delete: 200 with empty body
    | OkSid(sid: string)      // login: 200 {"sid": ...}
    | OkId(id: u32)           // create: 200 {"id": ...}
    | OkNotes(notes: seq<Note>) // list: 200 {"notes": [...]}
    | UserExists              // 400 "User already exists"
    | InvalidCredentials      // 401 "Invalid credentials"
    | Unauthorized            // 401 "Unauthorized"

  /** The HTTP status code each outcome is answered with. */
  function Status(o: Outcome): int {
    match o
    case UserExists => 400
    case InvalidCredentials => 401
    case Unauthorized => 401
    case _ => 200
  }

  /** The session token minted at login: "session_" then the counter in decimal. */
  function SessionToken(counter: u32): (sid: string)
    ensures |sid| > 8 && sid[..8] == "session_"
    ensures Canonical(sid[8..]) && Parse(sid[8..]) == counter as nat
  {
    var digits := Format(counter as nat);
    ParseFormat(counter as nat);
    assert ("session_" + digits)[8..] == digits;
    "session_" + digits
  }

  /**
   * Two tokens are equal exactly when they were minted from the same
   * counter value; so logins with no note created in between share a token.
   */
  lemma SessionTokenInjective(a: u32, b: u32)
    ensures SessionToken(a) == SessionToken(b) <==> a == b
  {
    // the digits after the prefix parse back to the counter (SessionToken's contract)
  }

  /** A user's note list, or the empty list when the user has none (Go's nil slice). */
  function NotesOf(notes: map<string, seq<Note>>, email: string): (ns: seq<Note>)
    ensures email in notes ==> ns == notes[email]
    ensures forall n :: n in ns ==> email in notes && n in notes[email]
  {
    if email in notes then notes[email] else []
  }

  /** Every list in `notes` is well numbered for the counter value `bound`. */
  ghost predicate AllWellNumbered(notes: map<string, seq<Note>>, bound: int) {
    forall e :: e in notes ==> WellNumbered(notes[e], bound)
  }

  /** Replacing one owner's list by its filtered version keeps every list well numbered. */
  lemma DeleteKeepsNumbering(notes: map<string, seq<Note>>, owner: string, id: u32, bound: int)
    requires AllWellNumbered(notes, bound)
    ensures AllWellNumbered(notes[owner := Without(NotesOf(notes, owner), id)], bound)
  {
    WithoutWellNumbered(NotesOf(notes, owner), id, bound);
  }

  /** Appending a note numbered with the counter keeps every list well numbered for the next value. */
  lemma CreateKeepsNumbering(notes: map<string, seq<Note>>, owner: string, counter: u32, text: string)
    requires AllWellNumbered(notes, counter as int)
    ensures AllWellNumbered(notes[owner := NotesOf(notes, owner) + [Note(counter, text)]], counter as int + 1)
  {
  }

  class Store {
    var users: map<string, User>
    var sessions: map<string, Session>
    var notes: map<string, seq<Note>>
    var noteId: u32

    /**
     * Every user is stored under its own email, and every session belongs
     * to a registered user.
     */
    ghost predicate Valid()
      reads this
    {
      && (forall e :: e in users ==> users[e].email == e)
      && (forall sid :: sid in sessions ==> sessions[sid].userEmail in users)
    }

    /**
     * Every note id handed out so far is below the counter, and each user's
     * ids increase along the list. This holds until the counter wraps.
     */
    ghost predicate IdsFresh()
      reads this
    {
      AllWellNumbered(notes, noteId as int)
    }

    /** An empty store with the counter at zero. */
    constructor ()
      ensures Valid() && IdsFresh()
      ensures users == map[] && sessions == map[] && notes == map[] && noteId == 0
    {
      users, sessions, notes, noteId := map[], map[], map[], 0;
    }

    /** signup: register `user` under its email unless that email is taken. */
    method Signup(user: User) returns (o: Outcome)
      requires Valid()
      modifies this
      ensures Valid()
      ensures Status(o) == if user.email in old(users) then 400 else 200
      ensures user.email in old(users) ==> o == UserExists && users == old(users)
      ensures user.email !in old(users) ==> o == Ok && users == old(users)[user.email := user]
      ensures sessions == old(sessions) && notes == old(notes) && noteId == old(noteId)
    {
      if user.email in users {
        return UserExists;
      }
      users := users[user.email := user];
      o := Ok;
    }

    /**
     * login: on a registered email with the matching plaintext password,
     * bind the token for the current counter to that user, replacing any
     * earlier binding of the same token.
     */
    method Login(email: string, password: string) returns (o: Outcome)
      requires Valid()
      modifies this
      ensures Valid()
      ensures Status(o) in {200, 401}
      ensures Status(o) == 200 <==> (email in old(users) && old(users)[email].password == password)
      ensures (email in old(users) && old(users)[email].password == password) ==>
        && o == OkSid(SessionToken(old(noteId)))
        && sessions == old(sessions)[SessionToken(old(noteId)) := Session(email)]
      ensures !(email in old(users) && old(users)[email].password == password) ==>
        o == InvalidCredentials && sessions == old(sessions)
      ensures users == old(users) && notes == old(notes) && noteId == old(noteId)
    {
      if email !in users || users[email].password != password {
        return InvalidCredentials;
      }
      var user := users[email];
      var sid := SessionToken(noteId);
      sessions := sessions[sid := Session(user.email)];
      o := OkSid(sid);
    }

    /** list notes: the session owner's notes in insertion order; changes nothing. */
    method ListNotes(sid: string) returns (o: Outcome)
      ensures Status(o) == if sid in sessions then 200 else 401
      ensures sid !in sessions ==> o == Unauthorized
      ensures sid in sessions ==> o == OkNotes(NotesOf(notes, sessions[sid].userEmail))
    {
      if sid !in sessions {
        return Unauthorized;
      }
      var session := sessions[sid];
      o := OkNotes(NotesOf(notes, session.userEmail));
    }

    /**
     * create note: append a note numbered with the counter to the session
     * owner's list, answer that number, and advance the counter modulo 2^32.
     */
    method CreateNote(sid: string, text: string) returns (o: Outcome)
      requires Valid()
      modifies this
      ensures Valid()
      ensures Status(o) == if sid in old(sessions) then 200 else 401
      ensures sid !in old(sessions) ==>
        o == Unauthorized && notes == old(notes) && noteId == old(noteId)
      ensures sid in old(sessions) ==>
        var owner := old(sessions)[sid].userEmail;
        && o == OkId(old(noteId))
        && noteId == Inc(old(noteId))
        && notes == old(notes)[owner := NotesOf(old(notes), owner) + [Note(old(noteId), text)]]
      ensures users == old(users) && sessions == old(sessions)
      // until the counter wraps, the id handed out was never handed out before
      ensures old(IdsFresh()) ==> forall e :: e in old(notes) ==> !HasId(old(notes)[e], old(noteId))
      ensures old(IdsFresh()) && old(noteId) < MAX ==> IdsFresh()
    {
      if sid !in sessions {
        return Unauthorized;
      }
      var session := sessions[sid];
      var newNote := Note(noteId, text);
      ghost var before := notes;
      ghost var counter := noteId;
      noteId := Inc(noteId);
      notes := notes[session.userEmail := NotesOf(notes, session.userEmail) + [newNote]];
      o := OkId(newNote.id);
      if AllWellNumbered(before, counter as int) && counter < MAX {
        CreateKeepsNumbering(before, session.userEmail, counter, text);
      }
    }

    /**
     * delete note: replace the session owner's list by the same list without
     * every note numbered `id`; an id that is not there is still success.
     */
    method DeleteNote(sid: string, id: u32) returns (o: Outcome)
      requires Valid()
      modifies this
      ensures Valid()
      ensures Status(o) == if sid in old(sessions) then 200 else 401
      ensures sid !in old(sessions) ==> o == Unauthorized && notes == old(notes)
      ensures sid in old(sessions) ==>
        var owner := old(sessions)[sid].userEmail;
        && o == Ok
        && notes == old(notes)[owner := Without(NotesOf(old(notes), owner), id)]
      ensures users == old(users) && sessions == old(sessions) && noteId == old(noteId)
      ensures old(IdsFresh()) ==> IdsFresh()
    {
      if sid !in sessions {
        return Unauthorized;
      }
      var session := sessions[sid];
      var userNotes := NotesOf(notes, session.userEmail);
      var updatedNotes: seq<Note> := [];
      var i := 0;
      while i < |userNotes|
        invariant 0 <= i <= |userNotes|
        invariant updatedNotes == Without(userNotes[..i], id)
        invariant unchanged(this)
      {
        var n := userNotes[i];
        WithoutSnoc(userNotes[..i], n, id);
        assert userNotes[..i + 1] == userNotes[..i] + [n];
        if n.id != id {
          updatedNotes := updatedNotes + [n];
        }
        i := i + 1;
      }
      assert userNotes[..i] == userNotes;
      ghost var before := notes;
      notes := notes[session.userEmail := updatedNotes];
      o := Ok;
      if AllWellNumbered(before, noteId as int) {
        DeleteKeepsNumbering(before, session.userEmail, id, noteId as int);
      }
    }
  }
}
