/**
 * Sequences of handler calls on a store, stating what the handlers'
 * contracts imply when they run one after another.
 */
module Scenarios {
  import opened Uint32
  import opened Notes
  import opened NoteStore

  /**
   * signup, login, create "hi", list, delete it, list again, on a fresh
   * store: the token is "session_0", the note gets id 0, the first list
   * shows it and the second list is empty.
   */
  method Walkthrough() returns (sid: string, id: u32, listed: seq<Note>, relisted: seq<Note>)
    ensures sid == "session_0"
    ensures id == 0
    ensures listed == [Note(0, "hi")]
    ensures relisted == []
  {
    var st := new Store();
    var o := st.Signup(User("A", "a@x.com", "p"));
    o := st.Login("a@x.com", "p");
    sid := o.sid;
    assert sid == "session_" + ['0'];
    o := st.CreateNote(sid, "hi");
    id := o.id;
    o := st.ListNotes(sid);
    listed := o.notes;
    o := st.DeleteNote(sid, 0);
    o := st.ListNotes(sid);
    relisted := o.notes;
  }

  /**
   * Two users who log in with no note created in between receive the same
   * token, and the token then belongs to the second: a note created with
   * the first user's token lands in the second user's list.
   */
  method SharedToken(a: User, b: User, text: string)
      returns (sidA: string, sidB: string, notesOfA: seq<Note>, notesOfB: seq<Note>)
    requires a.email != b.email
    ensures sidA == sidB
    ensures notesOfA == []
    ensures notesOfB == [Note(0, text)]
  {
    var st := new Store();
    var o := st.Signup(a);
    o := st.Signup(b);
    o := st.Login(a.email, a.password);
    sidA := o.sid;
    o := st.Login(b.email, b.password);
    sidB := o.sid;
    o := st.CreateNote(sidA, text);
    notesOfA := NotesOf(st.notes, a.email);
    notesOfB := NotesOf(st.notes, b.email);
  }

  /**
   * Two successful creates in a row, for any owners, hand out consecutive
   * ids: n and n + 1 modulo 2^32.
   */
  method ConsecutiveCreates(st: Store, sid1: string, text1: string, sid2: string, text2: string)
      returns (o1: Outcome, o2: Outcome)
    requires st.Valid()
    requires sid1 in st.sessions && sid2 in st.sessions
    modifies st
    ensures o1 == OkId(old(st.noteId))
    ensures o2 == OkId(Inc(old(st.noteId)))
    ensures old(st.noteId) < MAX ==> o2.id == o1.id + 1
  {
    o1 := st.CreateNote(sid1, text1);
    o2 := st.CreateNote(sid2, text2);
  }

  /**
   * While ids have not wrapped, a successful delete shrinks the owner's
   * list by exactly one note when the id is there and by none otherwise.
   */
  method DeleteRemovesAtMostOne(st: Store, sid: string, id: u32) returns (o: Outcome)
    requires st.Valid() && st.IdsFresh() && sid in st.sessions
    modifies st
    ensures o == Ok
    ensures
      var owner := old(st.sessions)[sid].userEmail;
      var before := NotesOf(old(st.notes), owner);
      |NotesOf(st.notes, owner)| == if HasId(before, id) then |before| - 1 else |before|
  {
    var owner := st.sessions[sid].userEmail;
    ghost var before := NotesOf(st.notes, owner);
    assert WellNumbered(before, st.noteId as int);
    WithoutRemovesAtMostOne(before, id, st.noteId as int);
    o := st.DeleteNote(sid, id);
  }

  /**
   * A note operation with a token that no login produced answers
   * Unauthorized and leaves the whole store as it was.
   */
  method RejectsUnknownSession(st: Store, sid: string, text: string, id: u32)
      returns (listed: Outcome, created: Outcome, deleted: Outcome)
    requires st.Valid() && sid !in st.sessions
    modifies st
    ensures listed == Unauthorized && created == Unauthorized && deleted == Unauthorized
    ensures st.users == old(st.users) && st.sessions == old(st.sessions)
    ensures st.notes == old(st.notes) && st.noteId == old(st.noteId)
  {
    listed := st.ListNotes(sid);
    created := st.CreateNote(sid, text);
    deleted := st.DeleteNote(sid, id);
  }
}
