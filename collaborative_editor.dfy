/**
  The editing session of one participant, without its user interface and
  transport: turning a local change of the text into an operation, saving a
  version, and reacting to the five kinds of incoming message.
 */
module CollaborativeEditor {
  import opened EditorTypes
  import opened OperationalTransform

  // ---------------------------------------------------------------------------
  // Diff extraction
  // ---------------------------------------------------------------------------

  /** The length of the longest common prefix of `a` and `b`. */
  function CommonPrefix(a: string, b: string): (k: nat)
    ensures k <= |a| && k <= |b|
    ensures forall i :: 0 <= i < k ==> a[i] == b[i]
    ensures k < |a| && k < |b| ==> a[k] != b[k]
  {
    if |a| == 0 || |b| == 0 || a[0] != b[0] then 0
    else 1 + CommonPrefix(a[1..], b[1..])
  }

  /** `findInsertPosition`: the first offset below both lengths where the
      texts differ, or else the old length. */
  function InsertPosition(oldText: string, newText: string): (p: nat)
    ensures p <= |oldText|
    ensures forall i :: 0 <= i < p && i < |newText| ==> oldText[i] == newText[i]
    ensures p < |oldText| ==> p < |newText| && oldText[p] != newText[p]
  {
    var k := CommonPrefix(oldText, newText);
    if k < |oldText| && k < |newText| then k else |oldText|
  }

  /** `findDeletePosition`: as InsertPosition, but falling back to the new
      length. */
  function DeletePosition(oldText: string, newText: string): (p: nat)
    ensures p <= |newText|
    ensures forall i :: 0 <= i < p && i < |oldText| ==> oldText[i] == newText[i]
    ensures p < |newText| ==> p < |oldText| && oldText[p] != newText[p]
  {
    var k := CommonPrefix(oldText, newText);
    if k < |oldText| && k < |newText| then k else |newText|
  }

  /** The scan of `findInsertPosition`, returning at the first mismatch. */
  method FindInsertPosition(oldText: string, newText: string) returns (p: nat)
    ensures p == InsertPosition(oldText, newText)
  {
    var i := 0;
    while i < Min(|oldText|, |newText|)
      invariant i <= Min(|oldText|, |newText|)
      invariant forall j :: 0 <= j < i ==> oldText[j] == newText[j]
    {
      if oldText[i] != newText[i] {
        return i;
      }
      i := i + 1;
    }
    return |oldText|;
  }

  /** The scan of `findDeletePosition`. */
  method FindDeletePosition(oldText: string, newText: string) returns (p: nat)
    ensures p == DeletePosition(oldText, newText)
  {
    var i := 0;
    while i < Min(|oldText|, |newText|)
      invariant i <= Min(|oldText|, |newText|)
      invariant forall j :: 0 <= j < i ==> oldText[j] == newText[j]
    {
      if oldText[i] != newText[i] {
        return i;
      }
      i := i + 1;
    }
    return |newText|;
  }

  /** The operation built for a change from `oldText` to `newText`: an insert
      of the added characters when the text grew, otherwise a delete of as
      many characters as it shrank by. */
  function DiffOperation(oldText: string, newText: string, userId: string, timestamp: int): (op: Operation)
    ensures op.userId == userId && op.timestamp == timestamp
    ensures |newText| > |oldText| ==>
      op.kind == Insert && op.position <= |oldText| && |op.Text()| == |newText| - |oldText|
    ensures |newText| <= |oldText| ==>
      op.kind == Delete && op.position <= |newText| && op.Len() == |oldText| - |newText|
  {
    if |newText| > |oldText| then
      var p := InsertPosition(oldText, newText);
      Operation(Insert, p, Some(newText[p..p + (|newText| - |oldText|)]), None, userId, timestamp)
    else
      Operation(Delete, DeletePosition(oldText, newText), None, Some(|oldText| - |newText|), userId, timestamp)
  }

  /** Texts that agree on their first `i` characters have a common prefix of
      at least `i`. */
  lemma CommonPrefixAtLeast(a: string, b: string, i: nat)
    requires i <= |a| && i <= |b|
    requires forall j :: 0 <= j < i ==> a[j] == b[j]
    ensures CommonPrefix(a, b) >= i
  {
  }

  /** Offsets of a text with `s` spliced in at `i`. */
  lemma SplicedOffsets(oldText: string, i: nat, s: string)
    requires i <= |oldText|
    ensures
      var newText := oldText[..i] + s + oldText[i..];
      && |newText| == |oldText| + |s|
      && (forall j :: 0 <= j < i ==> newText[j] == oldText[j])
      && (forall j :: i <= j < |oldText| ==> newText[j + |s|] == oldText[j])
  {
  }

  /** Diff round trip for one contiguous insertion: the operation built for
      the change, applied to the old text, gives the new text. */
  lemma InsertionRoundTrip(oldText: string, i: nat, s: string, userId: string, timestamp: int)
    requires i <= |oldText| && |s| > 0
    ensures
      var newText := oldText[..i] + s + oldText[i..];
      var op := DiffOperation(oldText, newText, userId, timestamp);
      op.kind == Insert && Apply(oldText, op) == newText
  {
    var newText := oldText[..i] + s + oldText[i..];
    var k := |s|;
    var p := CommonPrefix(oldText, newText);
    assert p >= i by {
      SplicedOffsets(oldText, i, s);
      CommonPrefixAtLeast(oldText, newText, i);
    }
    SplicedTail(oldText, i, s, p);
    var op := DiffOperation(oldText, newText, userId, timestamp);
    assert op == Operation(Insert, p, Some(newText[p..p + k]), None, userId, timestamp);
    ApplyInsertInRange(oldText, op);
    assert newText[..p] == oldText[..p];
    Rebuild(newText, p, k);
  }

  /** Past the splice point, the spliced text is the old text shifted by |s|. */
  lemma SplicedTail(oldText: string, i: nat, s: string, p: nat)
    requires i <= p <= |oldText|
    ensures (oldText[..i] + s + oldText[i..])[p + |s|..] == oldText[p..]
  {
    var newText := oldText[..i] + s + oldText[i..];
    SplicedOffsets(oldText, i, s);
    forall j | 0 <= j < |oldText| - p ensures newText[p + |s|..][j] == oldText[p..][j] {
      assert newText[p + |s| + j] == oldText[p + j];
    }
  }

  lemma Rebuild(t: string, p: nat, k: nat)
    requires p + k <= |t|
    ensures t == t[..p] + t[p..p + k] + t[p + k..]
  {
  }

  /** Diff round trip for one contiguous deletion of `k` characters at `i`. */
  lemma DeletionRoundTrip(oldText: string, i: nat, k: nat, userId: string, timestamp: int)
    requires i + k <= |oldText|
    ensures
      var newText := oldText[..i] + oldText[i + k..];
      var op := DiffOperation(oldText, newText, userId, timestamp);
      op.kind == Delete && op.Len() == k && Apply(oldText, op) == newText
  {
    var newText := oldText[..i] + oldText[i + k..];
    var p := CommonPrefix(oldText, newText);
    assert p >= i by {
      assert forall j :: 0 <= j < i ==> oldText[j] == newText[j] by {
        assert newText[..i] == oldText[..i];
      }
      CommonPrefixAtLeast(oldText, newText, i);
    }
    var op := DiffOperation(oldText, newText, userId, timestamp);
    assert op == Operation(Delete, p, None, Some(k), userId, timestamp);
    CutTail(oldText, i, k, p);
    ApplyDeleteInRange(oldText, op);
    assert newText[..p] == oldText[..p];
    assert newText == newText[..p] + newText[p..];
  }

  /** Past the cut point, the text with `k` characters cut at `i` is the old
      text shifted back by `k`. */
  lemma CutTail(oldText: string, i: nat, k: nat, p: nat)
    requires i <= p && i + k <= |oldText| && p <= |oldText| - k
    ensures (oldText[..i] + oldText[i + k..])[p..] == oldText[p + k..]
  {
    var newText := oldText[..i] + oldText[i + k..];
    forall j | 0 <= j < |oldText| - k - p ensures newText[p..][j] == oldText[p + k..][j] {
      assert newText[p + j] == oldText[p + k + j];
    }
  }

  /** A change that keeps the length but alters the text yields an empty
      delete, which does not reproduce the change. */
  lemma SameLengthChangeIsLost(oldText: string, newText: string, userId: string, timestamp: int)
    requires |oldText| == |newText| && oldText != newText
    ensures
      var op := DiffOperation(oldText, newText, userId, timestamp);
      op.kind == Delete && op.Len() == 0 && Apply(oldText, op) == oldText != newText
  {
    var p := DiffOperation(oldText, newText, userId, timestamp).position;
    assert oldText[..p] + oldText[p..] == oldText;
  }

  /** "hello" to "helllo" yields an insert of "l" at 4; "hello" to "hllo" a
      delete of one character at 1. */
  lemma DiffExamples()
    ensures DiffOperation("hello", "helllo", "u", 0) == Operation(Insert, 4, Some("l"), None, "u", 0)
    ensures DiffOperation("hello", "hllo", "u", 0) == Operation(Delete, 1, None, Some(1), "u", 0)
  {
    CommonPrefixAtLeast("hello", "helllo", 4);
    assert "hello"[4] != "helllo"[4];
    assert "helllo"[4..5] == "l";
    CommonPrefixAtLeast("hello", "hllo", 1);
    assert "hello"[1] != "hllo"[1];
  }

  // ---------------------------------------------------------------------------
  // The list of remote participants
  // ---------------------------------------------------------------------------

  /** No two participants share an id. */
  predicate UniqueIds(users: seq<User>) {
    forall i, j :: 0 <= i < j < |users| ==> users[i].id != users[j].id
  }

  /** `users.filter(u => u.id !== id)`. */
  function WithoutUser(users: seq<User>, id: string): (r: seq<User>)
    ensures forall u :: u in r <==> u in users && u.id != id
  {
    if users == [] then []
    else if users[0].id == id then WithoutUser(users[1..], id)
    else [users[0]] + WithoutUser(users[1..], id)
  }

  /** Removing an id that nobody has changes nothing. */
  lemma {:induction false} WithoutAbsentUser(users: seq<User>, id: string)
    requires forall u :: u in users ==> u.id != id
    ensures WithoutUser(users, id) == users
  {
    if users != [] {
      assert users[0] in users;
      assert forall u :: u in users[1..] ==> u in users;
      WithoutAbsentUser(users[1..], id);
      assert users == [users[0]] + users[1..];
    }
  }

  /** The tail of a list with unique ids has unique ids. */
  lemma TailKeepsUnique(users: seq<User>)
    requires users != [] && UniqueIds(users)
    ensures UniqueIds(users[1..])
  {
    var tail := users[1..];
    forall i, j | 0 <= i < j < |tail| ensures tail[i].id != tail[j].id {
      assert tail[i] == users[i + 1] && tail[j] == users[j + 1];
    }
  }

  /** Putting a participant whose id is new in front keeps ids unique. */
  lemma ConsKeepsUnique(x: User, rest: seq<User>)
    requires UniqueIds(rest) && forall v :: v in rest ==> v.id != x.id
    ensures UniqueIds([x] + rest)
  {
    var r := [x] + rest;
    forall i, j | 0 <= i < j < |r| ensures r[i].id != r[j].id {
      if i == 0 {
        assert r[j] == rest[j - 1] && rest[j - 1] in rest;
      } else {
        assert r[i] == rest[i - 1] && r[j] == rest[j - 1];
      }
    }
  }

  /** Removing participants keeps ids unique. */
  lemma {:induction false} WithoutUserKeepsUnique(users: seq<User>, id: string)
    requires UniqueIds(users)
    ensures UniqueIds(WithoutUser(users, id))
  {
    if users != [] {
      var tail := users[1..];
      TailKeepsUnique(users);
      WithoutUserKeepsUnique(tail, id);
      var rest := WithoutUser(tail, id);
      if users[0].id != id {
        forall v | v in rest ensures v.id != users[0].id {
          var j :| 0 <= j < |tail| && tail[j] == v;
          assert users[j + 1] == v;
        }
        ConsKeepsUnique(users[0], rest);
      }
    }
  }

  /** Filtering by id distributes over concatenation. */
  lemma {:induction false} WithoutUserAppend(a: seq<User>, b: seq<User>, id: string)
    ensures WithoutUser(a + b, id) == WithoutUser(a, id) + WithoutUser(b, id)
  {
    if a != [] {
      assert (a + b)[0] == a[0];
      assert (a + b)[1..] == a[1..] + b;
      WithoutUserAppend(a[1..], b, id);
    } else {
      assert a + b == b;
    }
  }

  /** The `user-join` update: drop any participant with the same id, then
      append the new one. */
  function WithUser(users: seq<User>, user: User): (r: seq<User>)
    ensures |r| > 0 && r[|r| - 1] == user
    ensures forall v :: v in r <==> v == user || (v in users && v.id != user.id)
  {
    WithoutUser(users, user.id) + [user]
  }

  /** Joining keeps ids unique: the new participant is the only one with its id. */
  lemma WithUserKeepsUnique(users: seq<User>, user: User)
    requires UniqueIds(users)
    ensures UniqueIds(WithUser(users, user))
  {
    var rest := WithoutUser(users, user.id);
    WithoutUserKeepsUnique(users, user.id);
    var r := rest + [user];
    forall i, j | 0 <= i < j < |r| ensures r[i].id != r[j].id {
      assert r[i] == rest[i] && rest[i] in rest;
      if j < |rest| {
        assert r[j] == rest[j];
      }
    }
  }

  /** Joining twice with the same participant gives the same list as
      joining once. */
  lemma WithUserIdempotent(users: seq<User>, user: User)
    ensures WithUser(WithUser(users, user), user) == WithUser(users, user)
  {
    var once := WithoutUser(users, user.id);
    WithoutUserAppend(once, [user], user.id);
    assert WithoutUser([user], user.id) == [];
    WithoutAbsentUser(once, user.id);
  }

  /** The `cursor` update: the participant with the id gets the cursor (or
      none, when the message has none); everyone else is unchanged. */
  function WithCursor(users: seq<User>, id: string, cursor: Option<int>): (r: seq<User>)
    ensures |r| == |users|
    ensures forall i :: 0 <= i < |users| ==>
      r[i] == if users[i].id == id then users[i].(cursor := cursor) else users[i]
  {
    if users == [] then []
    else
      [if users[0].id == id then users[0].(cursor := cursor) else users[0]]
      + WithCursor(users[1..], id, cursor)
  }

  // ---------------------------------------------------------------------------
  // The session state and its transitions
  // ---------------------------------------------------------------------------

  /** The state the session keeps: the visible text, the text the last local
      change was measured against, the remote participants, the saved
      versions, the current version number, the local operations since the
      last save, and the local participant's id. */
  datatype SessionState = SessionState(
    content: string,
    lastContent: string,
    users: seq<User>,
    versions: seq<DocumentVersion>,
    currentVersion: int,
    pendingOperations: seq<Operation>,
    localUserId: string)

  /** The state right after joining as `localUserId`. */
  function InitialState(localUserId: string): (s: SessionState)
    ensures Consistent(s) && s.localUserId == localUserId
    ensures s.users == [] && s.versions == [] && s.pendingOperations == []
  {
    SessionState("", "", [], [], 1, [], localUserId)
  }

  /** The invariant every transition keeps: the displayed text and the
      reference text agree, and participant ids are unique. */
  predicate Consistent(s: SessionState) {
    s.content == s.lastContent && UniqueIds(s.users)
  }

  /** The text after applying `ops` in order. */
  function ApplyAll(text: string, ops: seq<Operation>): (r: string)
    ensures (forall i :: 0 <= i < |ops| ==> ops[i].kind == Retain) ==> r == text
    ensures (forall i :: 0 <= i < |ops| ==> ops[i].kind == Delete) ==> |r| <= |text|
    decreases |ops|
  {
    if ops == [] then text
    else Apply(ApplyAll(text, ops[..|ops| - 1]), ops[|ops| - 1])
  }

  /** The `forEach` of the receive path, folding operations onto a text. */
  method ApplyOperations(text: string, ops: seq<Operation>) returns (r: string)
    ensures r == ApplyAll(text, ops)
  {
    r := text;
    for i := 0 to |ops|
      invariant r == ApplyAll(text, ops[..i])
    {
      ApplyAllStep(text, ops, i);
      r := Apply(r, ops[i]);
    }
    assert ops[..|ops|] == ops;
  }

  /** One more operation of the list folds onto the text so far. */
  lemma ApplyAllStep(text: string, ops: seq<Operation>, i: nat)
    requires i < |ops|
    ensures ApplyAll(text, ops[..i + 1]) == Apply(ApplyAll(text, ops[..i]), ops[i])
  {
    assert ops[..i + 1][..i] == ops[..i];
  }

  /** `handleTextChange`. */
  function TextChanged(s: SessionState, newContent: string, timestamp: int): (t: SessionState)
    ensures t.users == s.users && t.versions == s.versions
    ensures t.currentVersion == s.currentVersion && t.localUserId == s.localUserId
    ensures newContent == s.lastContent ==> t == s
    ensures newContent != s.lastContent ==> t.content == t.lastContent == newContent
  {
    if newContent == s.lastContent then s
    else
      var op := DiffOperation(s.lastContent, newContent, s.localUserId, timestamp);
      s.(content := newContent, lastContent := newContent,
         pendingOperations := s.pendingOperations + [op])
  }

  /** `saveDocument`; `id` stands for the generated version id. */
  function Saved(s: SessionState, id: string, timestamp: int): (t: SessionState)
    ensures t.content == s.content && t.lastContent == s.lastContent
    ensures t.users == s.users && t.localUserId == s.localUserId
    ensures t.pendingOperations == [] && |t.versions| == |s.versions| + 1
  {
    var version := DocumentVersion(id, s.content, s.pendingOperations, timestamp, s.currentVersion + 1);
    s.(versions := s.versions + [version], currentVersion := s.currentVersion + 1, pendingOperations := [])
  }

  /** `handleWebSocketMessage`. */
  function Received(s: SessionState, message: EditorMessage): (t: SessionState)
    ensures t.pendingOperations == s.pendingOperations && t.localUserId == s.localUserId
    ensures !message.DocumentStateMessage? ==> t.versions == s.versions && t.currentVersion == s.currentVersion
    ensures !message.OperationMessage? && !message.DocumentStateMessage? ==>
      t.content == s.content && t.lastContent == s.lastContent
  {
    match message
    case OperationMessage(userId, operation) =>
      if operation.Some? && userId != s.localUserId then
        var newContent := ApplyAll(s.content, Transform(operation.value, operation.value));
        s.(content := newContent, lastContent := newContent)
      else s
    case CursorMessage(userId, cursor) =>
      s.(users := WithCursor(s.users, userId, cursor))
    case UserJoinMessage(_, user) =>
      if user.Some? && user.value.id != s.localUserId then s.(users := WithUser(s.users, user.value))
      else s
    case UserLeaveMessage(userId) =>
      s.(users := WithoutUser(s.users, userId))
    case DocumentStateMessage(_, document) =>
      if document.Some? then
        s.(content := document.value.content, versions := s.versions + [document.value],
           currentVersion := document.value.version, lastContent := document.value.content)
      else s
  }

  /** Every incoming message keeps the session consistent. */
  lemma ReceivedKeepsConsistent(s: SessionState, message: EditorMessage)
    requires Consistent(s)
    ensures Consistent(Received(s, message))
  {
    match message
    case CursorMessage(userId, cursor) =>
      var r := WithCursor(s.users, userId, cursor);
      assert forall i :: 0 <= i < |r| ==> r[i].id == s.users[i].id;
    case UserJoinMessage(_, user) =>
      if user.Some? {
        WithUserKeepsUnique(s.users, user.value);
      }
    case UserLeaveMessage(userId) =>
      WithoutUserKeepsUnique(s.users, userId);
    case _ =>
  }

  /** A local change keeps the session consistent. */
  lemma TextChangeKeepsConsistent(s: SessionState, newContent: string, timestamp: int)
    requires Consistent(s)
    ensures Consistent(TextChanged(s, newContent, timestamp))
  {
  }

  /** A save keeps the session consistent. */
  lemma SaveKeepsConsistent(s: SessionState, id: string, timestamp: int)
    requires Consistent(s)
    ensures Consistent(Saved(s, id, timestamp))
  {
  }

  /** A local change: nothing happens when the text equals the reference
      text; otherwise the text becomes the new one and exactly one operation
      is queued, which replays the change when it is one contiguous
      insertion or deletion. */
  lemma TextChangeQueuesOneOperation(s: SessionState, newContent: string, timestamp: int)
    ensures newContent == s.lastContent ==> TextChanged(s, newContent, timestamp) == s
    ensures newContent != s.lastContent ==>
      var t := TextChanged(s, newContent, timestamp);
      && t.content == newContent && t.lastContent == newContent
      && |t.pendingOperations| == |s.pendingOperations| + 1
      && t.pendingOperations[..|s.pendingOperations|] == s.pendingOperations
      && t.pendingOperations[|s.pendingOperations|].userId == s.localUserId
      && t.users == s.users && t.versions == s.versions && t.currentVersion == s.currentVersion
  {
  }

  /** The queued operation of a local single insertion replays it on the
      text it was measured against. */
  lemma TextChangeReplaysInsertion(s: SessionState, i: nat, inserted: string, timestamp: int)
    requires Consistent(s) && i <= |s.content| && |inserted| > 0
    ensures
      var newContent := s.content[..i] + inserted + s.content[i..];
      var t := TextChanged(s, newContent, timestamp);
      Apply(s.content, t.pendingOperations[|t.pendingOperations| - 1]) == t.content
  {
    InsertionRoundTrip(s.content, i, inserted, s.localUserId, timestamp);
  }

  /** The queued operation of a local single deletion replays it. */
  lemma TextChangeReplaysDeletion(s: SessionState, i: nat, k: nat, timestamp: int)
    requires Consistent(s) && i + k <= |s.content| && k > 0
    ensures
      var newContent := s.content[..i] + s.content[i + k..];
      var t := TextChanged(s, newContent, timestamp);
      Apply(s.content, t.pendingOperations[|t.pendingOperations| - 1]) == t.content
  {
    DeletionRoundTrip(s.content, i, k, s.localUserId, timestamp);
    assert |s.content[..i] + s.content[i + k..]| < |s.content|;
  }

  /** Saving appends one version holding the current text and the queued
      operations, numbered one past the current version, advances the
      version and empties the queue. */
  lemma SaveRecordsVersion(s: SessionState, id: string, timestamp: int)
    ensures
      var t := Saved(s, id, timestamp);
      && |t.versions| == |s.versions| + 1
      && t.versions[..|s.versions|] == s.versions
      && var v := t.versions[|s.versions|];
      && v.content == s.content && v.operations == s.pendingOperations && v.version == s.currentVersion + 1
      && t.currentVersion == s.currentVersion + 1 && t.pendingOperations == []
      && v.id == id && v.timestamp == timestamp
      && t.content == s.content && t.lastContent == s.lastContent && t.users == s.users
  {
  }

  /** Resynchronising from the version just saved restores the same text
      and version number. */
  lemma ResyncFromSavedVersion(s: SessionState, id: string, timestamp: int, sender: string)
    requires Consistent(s)
    ensures
      var t := Saved(s, id, timestamp);
      var u := Received(t, DocumentStateMessage(sender, Some(t.versions[|t.versions| - 1])));
      u.content == t.content && u.lastContent == t.lastContent && u.currentVersion == t.currentVersion
  {
  }

  /** A `document-state` message received twice leaves the text and version
      as after once, while the history holds the document twice more. */
  lemma DocumentStateTwice(s: SessionState, sender: string, document: DocumentVersion)
    ensures
      var m := DocumentStateMessage(sender, Some(document));
      var once := Received(s, m);
      var twice := Received(once, m);
      && twice.content == once.content == document.content
      && twice.currentVersion == once.currentVersion == document.version
      && twice.versions == s.versions + [document, document]
  {
  }

  /** A repeated `user-join` does not duplicate the participant. */
  lemma UserJoinTwice(s: SessionState, sender: string, user: User)
    ensures
      var m := UserJoinMessage(sender, Some(user));
      Received(Received(s, m), m) == Received(s, m)
  {
    if user.id != s.localUserId {
      WithUserIdempotent(s.users, user);
    }
  }

  /** Operations and joins that carry the local participant are ignored. */
  lemma LocalMessagesIgnored(s: SessionState, op: Operation, sender: string, user: User)
    requires user.id == s.localUserId
    ensures Received(s, OperationMessage(s.localUserId, Some(op))) == s
    ensures Received(s, UserJoinMessage(sender, Some(user))) == s
  {
  }

  /** Folding a one- or two-element list. */
  lemma ApplyAllShort(text: string, r: seq<Operation>)
    requires 1 <= |r| <= 2
    ensures ApplyAll(text, r) == if |r| == 1 then Apply(text, r[0]) else Apply(Apply(text, r[0]), r[1])
  {
    assert r[..|r| - 1][..0] == [];
    if |r| == 2 {
      assert r[..1] == [r[0]];
    }
  }

  /** A remote operation is transformed against itself before it is applied:
      an insert lands twice, a delete with a length once, an empty delete or a
      retain not at all. */
  lemma RemoteOperationEffect(s: SessionState, sender: string, op: Operation)
    requires sender != s.localUserId
    ensures
      var t := Received(s, OperationMessage(sender, Some(op)));
      && t.content == t.lastContent
      && (op.kind == Insert && op.position <= |s.content| ==>
            t.content == s.content[..op.position] + op.Text() + op.Text() + s.content[op.position..])
      && (op.kind == Delete && op.Len() > 0 ==> t.content == Apply(s.content, op))
      && (op.kind == Delete && op.Len() == 0 ==> t.content == s.content)
      && (op.kind == Retain ==> t.content == s.content)
  {
    var text := s.content;
    match op.kind
    case Insert => SelfTransformedInsert(text, op);
    case Delete => SelfTransformedDelete(text, op);
    case Retain => ApplyAllShort(text, Transform(op, op));
  }

  /** An insert folded with its own transform lands twice. */
  lemma SelfTransformedInsert(text: string, op: Operation)
    requires op.kind == Insert
    ensures op.position <= |text| ==>
      ApplyAll(text, Transform(op, op)) == text[..op.position] + op.Text() + op.Text() + text[op.position..]
  {
    if op.position <= |text| {
      ApplyAllShort(text, Transform(op, op));
      EqualInsertsFavourFirst(text, op, op);
    }
  }

  /** A delete folded with its own transform lands once; an empty one not at all. */
  lemma SelfTransformedDelete(text: string, op: Operation)
    requires op.kind == Delete
    ensures op.Len() > 0 ==> ApplyAll(text, Transform(op, op)) == Apply(text, op)
    ensures op.Len() == 0 ==> ApplyAll(text, Transform(op, op)) == text
  {
    var r := Transform(op, op);
    ApplyAllShort(text, r);
    if op.Len() > 0 {
      assert r == [op];
    } else {
      var p := Min(op.position, |text|);
      assert text[..p] + text[p..] == text;
      assert Apply(text, op) == text;
    }
  }

  /** `cursor` and `user-leave` touch only the participant they name. */
  lemma OthersUnchanged(s: SessionState, sender: string, cursor: Option<int>)
    ensures
      var t := Received(s, CursorMessage(sender, cursor));
      forall i :: 0 <= i < |s.users| && s.users[i].id != sender ==> t.users[i] == s.users[i]
    ensures
      var t := Received(s, UserLeaveMessage(sender));
      forall u :: u in s.users && u.id != sender ==> u in t.users
    ensures
      var t := Received(s, UserLeaveMessage(sender));
      forall u :: u in t.users ==> u.id != sender
  {
  }

  // ---------------------------------------------------------------------------
  // The session object
  // ---------------------------------------------------------------------------

  /** One participant's editor session. Each field is the component state or
      reference of the same name; `localUserId` is the id recorded on join. */
  class Session {
    var content: string
    var lastContent: string
    var users: seq<User>
    var versions: seq<DocumentVersion>
    var currentVersion: int
    var pendingOperations: seq<Operation>
    const localUserId: string

    function State(): SessionState
      reads this
    {
      SessionState(content, lastContent, users, versions, currentVersion, pendingOperations, localUserId)
    }

    ghost predicate Valid()
      reads this
    {
      Consistent(State())
    }

    /** A session that has joined as `localUserId`, with the initial state. */
    constructor (localUserId: string)
      ensures Valid() && State() == InitialState(localUserId)
    {
      content := "";
      lastContent := "";
      users := [];
      versions := [];
      currentVersion := 1;
      pendingOperations := [];
      this.localUserId := localUserId;
    }

    method HandleTextChange(newContent: string, timestamp: int)
      requires Valid()
      modifies this
      ensures Valid() && State() == TextChanged(old(State()), newContent, timestamp)
    {
      TextChangeKeepsConsistent(State(), newContent, timestamp);
      var oldContent := lastContent;
      if newContent == oldContent {
        return;
      }
      content := newContent;
      lastContent := newContent;
      var operation: Operation;
      if |newContent| > |oldContent| {
        var insertPos := FindInsertPosition(oldContent, newContent);
        var insertedText := newContent[insertPos..insertPos + (|newContent| - |oldContent|)];
        operation := Operation(Insert, insertPos, Some(insertedText), None, localUserId, timestamp);
      } else {
        var deletePos := FindDeletePosition(oldContent, newContent);
        operation := Operation(Delete, deletePos, None, Some(|oldContent| - |newContent|), localUserId, timestamp);
      }
      pendingOperations := pendingOperations + [operation];
    }

    method SaveDocument(id: string, timestamp: int)
      requires Valid()
      modifies this
      ensures Valid() && State() == Saved(old(State()), id, timestamp)
    {
      SaveKeepsConsistent(State(), id, timestamp);
      var version := DocumentVersion(id, content, pendingOperations, timestamp, currentVersion + 1);
      versions := versions + [version];
      currentVersion := currentVersion + 1;
      pendingOperations := [];
    }

    method HandleWebSocketMessage(message: EditorMessage)
      requires Valid()
      modifies this
      ensures Valid() && State() == Received(old(State()), message)
    {
      ReceivedKeepsConsistent(State(), message);
      match message {
        case OperationMessage(userId, operation) =>
          if operation.Some? && userId != localUserId {
            var transformedOps := Transform(operation.value, operation.value);
            var newContent := ApplyOperations(content, transformedOps);
            content := newContent;
            lastContent := newContent;
          }
        case CursorMessage(userId, cursor) =>
          users := WithCursor(users, userId, cursor);
        case UserJoinMessage(_, user) =>
          if user.Some? && user.value.id != localUserId {
            users := WithUser(users, user.value);
          }
        case UserLeaveMessage(userId) =>
          users := WithoutUser(users, userId);
        case DocumentStateMessage(_, document) =>
          if document.Some? {
            content := document.value.content;
            versions := versions + [document.value];
            currentVersion := document.value.version;
            lastContent := document.value.content;
          }
      }
    }
  }
}
