/** The membership test every authorisation decision on a conversation uses
    (`userIsConversationParticipant`). */
module Membership {
  import opened Types

  /** The first participant whose `userId` is `userId`, as `Array.prototype.find` returns it. */
  function Find(participants: seq<Participant>, userId: Id): (r: Option<Participant>)
    ensures r.None? <==> forall i :: 0 <= i < |participants| ==> participants[i].userId != userId
    ensures r.Some? ==> exists i :: 0 <= i < |participants| && participants[i] == r.value && r.value.userId == userId
                                    && forall j :: 0 <= j < i ==> participants[j].userId != userId
  {
    if participants == [] then None
    else if participants[0].userId == userId then Some(participants[0])
    else
      var r := Find(participants[1..], userId);
      if r.Some? then
        var i :| 0 <= i < |participants| - 1 && participants[1..][i] == r.value && r.value.userId == userId
                 && forall j :: 0 <= j < i ==> participants[1..][j].userId != userId;
        assert participants[i + 1] == r.value;
        r
      else r
  }

  /** `!!participants.find(p => p.userId === userId)`: the user is one of the participants. */
  function IsParticipant(participants: seq<Participant>, userId: Id): (r: bool)
    ensures r <==> exists i :: 0 <= i < |participants| && participants[i].userId == userId
    ensures participants == [] ==> !r
  {
    Find(participants, userId).Some?
  }

  /** The answer does not depend on the order of the participants. */
  lemma {:induction false} OrderIrrelevant(a: seq<Participant>, b: seq<Participant>, userId: Id)
    requires multiset(a) == multiset(b)
    ensures IsParticipant(a, userId) <==> IsParticipant(b, userId)
  {
    if IsParticipant(a, userId) {
      MemberOfSame(a, b, userId);
    }
    if IsParticipant(b, userId) {
      MemberOfSame(b, a, userId);
    }
  }

  lemma {:induction false} MemberOfSame(a: seq<Participant>, b: seq<Participant>, userId: Id)
    requires multiset(a) == multiset(b)
    requires IsParticipant(a, userId)
    ensures IsParticipant(b, userId)
  {
    var i :| 0 <= i < |a| && a[i].userId == userId;
    assert a[i] in multiset(a);
    assert a[i] in b;
    var j :| 0 <= j < |b| && b[j] == a[i];
    assert b[j].userId == userId;
  }

  /** Appending participants never turns a member into a non-member. */
  lemma {:induction false} AppendKeepsMember(a: seq<Participant>, b: seq<Participant>, userId: Id)
    requires IsParticipant(a, userId)
    ensures IsParticipant(a + b, userId)
  {
    var i :| 0 <= i < |a| && a[i].userId == userId;
    assert (a + b)[i] == a[i];
  }
}
