/** The user and session registry (utils/session_manager.py): two dictionaries
    keyed by generated ids, with the operations that create, find, end, clean
    up and delete entries. A Python dict keeps its keys in insertion order,
    which `find_user_by_username` and `get_user_sessions` observe, so each
    dictionary is a map plus the order of its keys. Persistence to JSON files
    is not modelled; the clock and the uuid hex digits are parameters. */
module SessionManager {
  import opened Common
  import opened Seqs
  import opened Text
  import VS = VectorStore

  /** `ChatSession` */
  datatype ChatSession = ChatSession(sessionId: string, userId: string, createdAt: real,
                                     lastActivity: real, metadata: Metadata)

  /** `User` */
  datatype User = User(userId: string, username: string, createdAt: real, lastLogin: real,
                       totalSessions: int, metadata: Metadata)

  /** The manager's two dictionaries, each with its keys in insertion order. */
  datatype Registry = Registry(users: map<string, User>, userOrder: seq<string>,
                               sessions: map<string, ChatSession>, sessionOrder: seq<string>)

  /** `order` lists the keys of `m`, each once. */
  ghost predicate OrderMatches<V>(order: seq<string>, m: map<string, V>) {
    NoDups(order) && forall k :: k in order <==> k in m
  }

  /** The registry's invariant: each dictionary's order lists its keys, each
      entry is stored under its own id, and every session belongs to a known
      user. */
  ghost predicate Valid(reg: Registry) {
    && OrderMatches(reg.userOrder, reg.users)
    && OrderMatches(reg.sessionOrder, reg.sessions)
    && (forall k :: k in reg.users ==> reg.users[k].userId == k)
    && (forall k :: k in reg.sessions ==> reg.sessions[k].sessionId == k)
    && (forall k :: k in reg.sessions ==> reg.sessions[k].userId in reg.users)
  }

  /** `d[k] = v` on an ordered dict: a new key goes last, an existing key
      keeps its place. */
  function Assign<V>(order: seq<string>, m: map<string, V>, k: string, v: V): (r: (seq<string>, map<string, V>))
    requires OrderMatches(order, m)
    ensures OrderMatches(r.0, r.1)
    ensures r.1.Keys == m.Keys + {k} && k in r.1 && r.1[k] == v
    ensures forall j :: j in m && j != k ==> r.1[j] == m[j]
    ensures k in m ==> r.0 == order
    ensures k !in m ==> r.0 == order + [k]
  {
    if k in m then (order, m[k := v])
    else
      var o := order + [k];
      assert forall i :: 0 <= i < |order| ==> o[i] == order[i];
      (o, m[k := v])
  }

  /** Deleting the keys that fail `keep`, as a sequence of `del d[k]`. */
  function Retain<V>(order: seq<string>, m: map<string, V>, keep: string -> bool): (r: (seq<string>, map<string, V>))
    requires OrderMatches(order, m)
    ensures OrderMatches(r.0, r.1)
    ensures forall k :: k in r.1 <==> k in m && keep(k)
    ensures forall k :: k in r.1 ==> r.1[k] == m[k]
    ensures IsSubseq(r.0, order)
  {
    FilterNoDups(order, keep);
    FilterMembers(order, keep);
    (Filter(order, keep), map k | k in m && keep(k) :: m[k])
  }

  /** The values of `m` in key order. */
  function Lookup<V>(order: seq<string>, m: map<string, V>): (r: seq<V>)
    requires forall k :: k in order ==> k in m
    ensures |r| == |order|
    ensures forall i :: 0 <= i < |order| ==> r[i] == m[order[i]]
  {
    if |order| == 0 then [] else [m[order[0]]] + Lookup(order[1..], m)
  }

  /** Selecting keys in order selects as many keys as the set they form. */
  lemma CountKeys<V>(order: seq<string>, m: map<string, V>, keep: string -> bool, selected: set<string>)
    requires OrderMatches(order, m)
    requires forall k :: k in selected <==> k in m && keep(k)
    ensures |Filter(order, keep)| == |selected|
  {
    var f := Filter(order, keep);
    FilterNoDups(order, keep);
    NoDupsCard(f);
    FilterMembers(order, keep);
    assert Elems(f) == selected;
  }

  // ---------------------------------------------------------------------
  // Identifiers

  /** `f"user_{uuid.uuid4().hex[:8]}"`, given the hex digits. */
  function UserId(hex: string): string {
    "user_" + hex
  }

  /** `f"session_{uuid.uuid4().hex[:12]}"`, given the hex digits. */
  function SessionId(hex: string): string {
    "session_" + hex
  }

  /** A user id in the generated format. */
  predicate IsUserId(u: string) {
    |u| == 13 && u[..5] == "user_" && IsHex(u[5..], 8)
  }

  /** A session id in the generated format. */
  predicate IsSessionId(s: string) {
    |s| == 20 && s[..8] == "session_" && IsHex(s[8..], 12)
  }

  /** A user id is in the generated format exactly when its digits are
      eight hex digits. */
  lemma UserIdFormat(hex: string)
    ensures IsUserId(UserId(hex)) <==> IsHex(hex, 8)
  {
    var u := UserId(hex);
    assert u[..5] == "user_" && u[5..] == hex;
  }

  /** A session id is in the generated format exactly when its digits are
      twelve hex digits. */
  lemma SessionIdFormat(hex: string)
    ensures IsSessionId(SessionId(hex)) <==> IsHex(hex, 12)
  {
    var s := SessionId(hex);
    assert s[..8] == "session_" && s[8..] == hex;
  }

  /** `generate_collection_name`: the same name the vector store derives for
      the pair. */
  function GenerateCollectionName(userId: string, sessionId: string): (name: string)
    ensures name == VS.SessionNamespace(userId, sessionId)
    ensures |name| == |userId| + |sessionId| + 14
  {
    "user_" + userId + "_session_" + sessionId
  }

  /** Distinct generated (user, session) pairs get distinct collections, as
      the method's documentation claims: the user id has a fixed length, so
      the name splits back into its parts. */
  lemma NamespaceInjective(u1: string, s1: string, u2: string, s2: string)
    requires IsUserId(u1) && IsUserId(u2)
    requires GenerateCollectionName(u1, s1) == GenerateCollectionName(u2, s2)
    ensures u1 == u2 && s1 == s2
  {
    var n := GenerateCollectionName(u1, s1);
    assert |u1| == 13 && |u2| == 13;
    assert n[5..18] == u1;
    assert GenerateCollectionName(u2, s2)[5..18] == u2;
    assert n[27..] == s1;
    assert GenerateCollectionName(u2, s2)[27..] == s2;
  }

  /** A generated user's session collection is never any generated user's
      global collection. */
  lemma SessionNamespaceNotGlobal(u1: string, s1: string, u2: string)
    requires IsUserId(u1) && IsUserId(u2)
    ensures VS.SessionNamespace(u1, s1) != VS.GlobalNamespace(u2)
  {
    assert |u1| == 13 && |u2| == 13;
    assert VS.SessionNamespace(u1, s1)[19] == 's';
    assert VS.GlobalNamespace(u2)[19] == 'g';
  }

  // ---------------------------------------------------------------------
  // Users

  /** `create_user`: stores a new user under `user_<hex>` with no sessions
      yet. Neither the username nor the id is checked for uniqueness; a
      colliding id replaces the earlier user. */
  function CreateUser(reg: Registry, username: string, metadata: Metadata, hex: string, now: real)
    : (r: (string, Registry))
    requires Valid(reg)
    ensures r.0 == UserId(hex)
    ensures Valid(r.1)
    ensures r.1.users.Keys == reg.users.Keys + {r.0}
    ensures r.0 in r.1.users && r.1.users[r.0] == User(r.0, username, now, now, 0, metadata)
    ensures forall k :: k in reg.users && k != r.0 ==> r.1.users[k] == reg.users[k]
    ensures r.0 !in reg.users ==> r.1.userOrder == reg.userOrder + [r.0]
    ensures r.1.sessions == reg.sessions && r.1.sessionOrder == reg.sessionOrder
  {
    var id := UserId(hex);
    var (order, users) := Assign(reg.userOrder, reg.users, id, User(id, username, now, now, 0, metadata));
    (id, reg.(users := users, userOrder := order))
  }

  /** A user created under a new id adds one to the user count. */
  lemma CreateUserCounts(reg: Registry, username: string, metadata: Metadata, hex: string, now: real)
    requires Valid(reg) && UserId(hex) !in reg.users
    ensures |CreateUser(reg, username, metadata, hex, now).1.users| == |reg.users| + 1
  {
    var users := CreateUser(reg, username, metadata, hex, now).1.users;
    assert users.Keys == reg.users.Keys + {UserId(hex)};
  }

  /** The first user in `order` with the given name. */
  function FirstNamed(order: seq<string>, users: map<string, User>, username: string): (r: Option<User>)
    requires forall k :: k in order ==> k in users
    ensures r.None? <==> forall i :: 0 <= i < |order| ==> users[order[i]].username != username
    ensures r.Some? ==> exists i :: && 0 <= i < |order| && users[order[i]] == r.value
                                    && r.value.username == username
                                    && forall j :: 0 <= j < i ==> users[order[j]].username != username
    decreases |order|
  {
    if |order| == 0 then None
    else if users[order[0]].username == username then Some(users[order[0]])
    else
      var r := FirstNamed(order[1..], users, username);
      assert forall i :: 1 <= i < |order| ==> order[i] == order[1..][i - 1];
      if r.Some? then
        var i :| && 0 <= i < |order[1..]| && users[order[1..][i]] == r.value
                 && r.value.username == username
                 && forall j :: 0 <= j < i ==> users[order[1..][j]].username != username;
        assert users[order[i + 1]] == r.value;
        r
      else r
  }

  /** `find_user_by_username`: the earliest-created user with that name, or
      `None` exactly when nobody has it. */
  function FindUserByUsername(reg: Registry, username: string): (r: Option<User>)
    requires Valid(reg)
    ensures r.None? <==> forall k :: k in reg.users ==> reg.users[k].username != username
    ensures r.Some? ==> r.value.username == username && r.value.userId in reg.users
                        && reg.users[r.value.userId] == r.value
  {
    var r := FirstNamed(reg.userOrder, reg.users, username);
    if r.None? then
      assert forall k :: k in reg.users ==> reg.users[k].username != username by {
        forall k | k in reg.users
          ensures reg.users[k].username != username
        {
          var i :| 0 <= i < |reg.userOrder| && reg.userOrder[i] == k;
        }
      }
      r
    else r
  }

  /** Usernames are not unique: registering the same name twice gives two
      users, and the lookup answers with the first one. */
  lemma UsernamesNotUnique(reg: Registry, username: string, md1: Metadata, md2: Metadata,
                           hex1: string, hex2: string, t1: real, t2: real)
    requires Valid(reg)
    requires forall k :: k in reg.users ==> reg.users[k].username != username
    requires UserId(hex1) !in reg.users && UserId(hex2) !in reg.users && hex1 != hex2
    ensures var (a, r1) := CreateUser(reg, username, md1, hex1, t1);
            var (b, r2) := CreateUser(r1, username, md2, hex2, t2);
            && a != b && a in r2.users && b in r2.users
            && r2.users[a].username == username && r2.users[b].username == username
            && FindUserByUsername(r2, username) == Some(r2.users[a])
  {
    var (a, r1) := CreateUser(reg, username, md1, hex1, t1);
    var (b, r2) := CreateUser(r1, username, md2, hex2, t2);
    assert a != b by {
      assert a[5..] == hex1 && b[5..] == hex2;
    }
    var o := r2.userOrder;
    assert o == reg.userOrder + [a] + [b];
    var n := |reg.userOrder|;
    assert o[n] == a;
    forall j | 0 <= j < n
      ensures r2.users[o[j]].username != username
    {
      assert o[j] == reg.userOrder[j];
      assert o[j] in reg.users && o[j] != a && o[j] != b;
    }
    FirstNamedAt(o, r2.users, username, n);
  }

  /** The first match is found at the first position that matches. */
  lemma {:induction false} FirstNamedAt(order: seq<string>, users: map<string, User>, username: string, i: nat)
    requires forall k :: k in order ==> k in users
    requires i < |order| && users[order[i]].username == username
    requires forall j :: 0 <= j < i ==> users[order[j]].username != username
    ensures FirstNamed(order, users, username) == Some(users[order[i]])
    decreases i
  {
    if i > 0 {
      assert forall j :: 0 <= j < i - 1 ==> order[1..][j] == order[j + 1];
      FirstNamedAt(order[1..], users, username, i - 1);
    }
  }

  // ---------------------------------------------------------------------
  // Sessions

  /** `create_session`: refuses an unknown user; otherwise stores a new
      session under `session_<hex>` and counts it on the user, whose last
      login becomes the creation time. */
  function CreateSession(reg: Registry, userId: string, metadata: Metadata, hex: string, now: real)
    : (r: Result<(string, Registry)>)
    requires Valid(reg)
    ensures r.Failure? <==> userId !in reg.users
    ensures r.Success? ==>
              var (sid, reg') := r.value;
              && sid == SessionId(hex)
              && Valid(reg')
              && reg'.sessions.Keys == reg.sessions.Keys + {sid}
              && sid in reg'.sessions && reg'.sessions[sid] == ChatSession(sid, userId, now, now, metadata)
              && (forall k :: k in reg.sessions && k != sid ==> reg'.sessions[k] == reg.sessions[k])
              && reg'.users.Keys == reg.users.Keys
              && userId in reg'.users
              && reg'.users[userId].totalSessions == reg.users[userId].totalSessions + 1
              && reg'.users[userId].lastLogin == now
              && reg'.users[userId].(totalSessions := 0, lastLogin := 0.0)
                 == reg.users[userId].(totalSessions := 0, lastLogin := 0.0)
              && (forall k :: k in reg.users && k != userId ==> reg'.users[k] == reg.users[k])
              && reg'.userOrder == reg.userOrder
  {
    if userId !in reg.users then Failure("User " + userId + " not found")
    else
      var sid := SessionId(hex);
      Success((sid, CountSession(AddSession(reg, ChatSession(sid, userId, now, now, metadata)), userId, now)))
  }

  /** `self.sessions[session_id] = session` for a session of a known user. */
  function AddSession(reg: Registry, s: ChatSession): (reg': Registry)
    requires Valid(reg) && s.userId in reg.users
    ensures Valid(reg')
    ensures reg'.sessions.Keys == reg.sessions.Keys + {s.sessionId}
    ensures s.sessionId in reg'.sessions && reg'.sessions[s.sessionId] == s
    ensures forall k :: k in reg.sessions && k != s.sessionId ==> reg'.sessions[k] == reg.sessions[k]
    ensures reg'.users == reg.users && reg'.userOrder == reg.userOrder
  {
    var (sorder, sessions) := Assign(reg.sessionOrder, reg.sessions, s.sessionId, s);
    reg.(sessions := sessions, sessionOrder := sorder)
  }

  /** `user.total_sessions += 1; user.last_login = now` for a known user. */
  function CountSession(reg: Registry, userId: string, now: real): (reg': Registry)
    requires Valid(reg) && userId in reg.users
    ensures Valid(reg')
    ensures reg'.users.Keys == reg.users.Keys && userId in reg'.users
    ensures reg'.users[userId].totalSessions == reg.users[userId].totalSessions + 1
    ensures reg'.users[userId].lastLogin == now
    ensures reg'.users[userId].(totalSessions := 0, lastLogin := 0.0)
            == reg.users[userId].(totalSessions := 0, lastLogin := 0.0)
    ensures forall k :: k in reg.users && k != userId ==> reg'.users[k] == reg.users[k]
    ensures reg'.userOrder == reg.userOrder
    ensures reg'.sessions == reg.sessions && reg'.sessionOrder == reg.sessionOrder
  {
    var u := reg.users[userId];
    var (uorder, users) := Assign(reg.userOrder, reg.users, userId,
                                  u.(totalSessions := u.totalSessions + 1, lastLogin := now));
    reg.(users := users, userOrder := uorder)
  }

  /** `update_session_activity`: refreshes one session's activity time, if
      that session exists. */
  function UpdateSessionActivity(reg: Registry, sessionId: string, now: real): (reg': Registry)
    requires Valid(reg)
    ensures Valid(reg')
    ensures sessionId !in reg.sessions ==> reg' == reg
    ensures reg'.users == reg.users && reg'.userOrder == reg.userOrder && reg'.sessionOrder == reg.sessionOrder
    ensures reg'.sessions.Keys == reg.sessions.Keys
    ensures sessionId in reg.sessions ==>
              && reg'.sessions[sessionId].lastActivity == now
              && reg'.sessions[sessionId].(lastActivity := 0.0) == reg.sessions[sessionId].(lastActivity := 0.0)
    ensures forall k :: k in reg.sessions && k != sessionId ==> reg'.sessions[k] == reg.sessions[k]
  {
    if sessionId in reg.sessions then
      var s := reg.sessions[sessionId];
      var sessions := reg.sessions[sessionId := s.(lastActivity := now)];
      assert sessions.Keys == reg.sessions.Keys;
      reg.(sessions := sessions)
    else reg
  }

  /** `end_session`: removes one session and reports whether it existed. */
  function EndSession(reg: Registry, sessionId: string): (r: (bool, Registry))
    requires Valid(reg)
    ensures r.0 <==> sessionId in reg.sessions
    ensures Valid(r.1)
    ensures r.1.sessions.Keys == reg.sessions.Keys - {sessionId}
    ensures forall k :: k in r.1.sessions ==> r.1.sessions[k] == reg.sessions[k]
    ensures r.1.users == reg.users && r.1.userOrder == reg.userOrder
    ensures !r.0 ==> r.1 == reg
  {
    if sessionId in reg.sessions then
      var (order, sessions) := Retain(reg.sessionOrder, reg.sessions, k => k != sessionId);
      (true, reg.(sessions := sessions, sessionOrder := order))
    else (false, reg)
  }

  /** The sessions `get_user_sessions` shows: the user's, and when only active
      ones are asked for, those used within the last hour. */
  predicate Shown(s: ChatSession, userId: string, activeOnly: bool, now: real) {
    s.userId == userId && (!activeOnly || s.lastActivity > now - 3600.0)
  }

  /** Most recently active first. */
  predicate Descending(s: seq<ChatSession>) {
    forall i, j :: 0 <= i < j < |s| ==> s[i].lastActivity >= s[j].lastActivity
  }

  /** The entries of `s` with activity time `t`, in their order in `s`. */
  function Tied(s: seq<ChatSession>, t: real): (r: seq<ChatSession>)
    ensures |r| <= |s|
  {
    if |s| == 0 then []
    else (if s[0].lastActivity == t then [s[0]] else []) + Tied(s[1..], t)
  }

  /** Places `x` before the first entry that is not more recent than it, so
      `x` precedes the entries it ties with. */
  function Insert(x: ChatSession, t: seq<ChatSession>): (r: seq<ChatSession>)
    ensures |r| == |t| + 1
    decreases |t|
  {
    if |t| == 0 || t[0].lastActivity <= x.lastActivity then [x] + t
    else [t[0]] + Insert(x, t[1..])
  }

  /** Inserting adds exactly one occurrence of `x`. */
  lemma {:induction false} InsertPermutes(x: ChatSession, t: seq<ChatSession>)
    ensures multiset(Insert(x, t)) == multiset(t) + multiset{x}
    decreases |t|
  {
    if |t| > 0 && t[0].lastActivity > x.lastActivity {
      InsertPermutes(x, t[1..]);
      assert t == [t[0]] + t[1..];
    }
  }

  /** Inserting into a descending sequence keeps it descending. */
  lemma {:induction false} InsertDescending(x: ChatSession, t: seq<ChatSession>)
    requires Descending(t)
    ensures Descending(Insert(x, t))
    decreases |t|
  {
    if |t| == 0 || t[0].lastActivity <= x.lastActivity {
      forall j | 0 <= j < |t|
        ensures x.lastActivity >= t[j].lastActivity
      {
        if j > 0 {
          assert t[0].lastActivity >= t[j].lastActivity;
        }
      }
      DescendingCons(x, t);
    } else {
      var rest := Insert(x, t[1..]);
      DescendingTail(t);
      InsertDescending(x, t[1..]);
      InsertMembers(x, t[1..]);
      forall j | 0 <= j < |rest|
        ensures t[0].lastActivity >= rest[j].lastActivity
      {
        assert rest[j] in rest;
      }
      DescendingCons(t[0], rest);
    }
  }

  lemma DescendingTail(t: seq<ChatSession>)
    requires |t| > 0 && Descending(t)
    ensures Descending(t[1..]) && forall y :: y in t[1..] ==> t[0].lastActivity >= y.lastActivity
  {
    forall y | y in t[1..]
      ensures t[0].lastActivity >= y.lastActivity
    {
      var j :| 0 <= j < |t[1..]| && t[1..][j] == y;
      assert t[j + 1] == y;
    }
  }

  lemma DescendingCons(a: ChatSession, r: seq<ChatSession>)
    requires Descending(r)
    requires forall j :: 0 <= j < |r| ==> a.lastActivity >= r[j].lastActivity
    ensures Descending([a] + r)
  {
    var s := [a] + r;
    forall i, j | 0 <= i < j < |s|
      ensures s[i].lastActivity >= s[j].lastActivity
    {
      assert s[j] == r[j - 1];
      if i > 0 {
        assert s[i] == r[i - 1];
      }
    }
  }

  /** Inserting adds `x` and nothing else. */
  lemma InsertMembers(x: ChatSession, t: seq<ChatSession>)
    ensures forall y :: y in Insert(x, t) ==> y == x || y in t
  {
    InsertPermutes(x, t);
    forall y | y in Insert(x, t)
      ensures y == x || y in t
    {
      assert y in multiset(Insert(x, t));
    }
  }

  /** `sorted(..., key=last_activity, reverse=True)`, which is stable. */
  function SortByActivity(s: seq<ChatSession>): (r: seq<ChatSession>)
    ensures multiset(r) == multiset(s)
    ensures Descending(r)
    decreases |s|
  {
    if |s| == 0 then []
    else
      assert s == [s[0]] + s[1..];
      InsertPermutes(s[0], SortByActivity(s[1..]));
      InsertDescending(s[0], SortByActivity(s[1..]));
      Insert(s[0], SortByActivity(s[1..]))
  }

  /** Inserting keeps the order among ties: `x` goes before the entries it
      ties with. */
  lemma {:induction false} InsertStable(x: ChatSession, t: seq<ChatSession>, v: real)
    ensures Tied(Insert(x, t), v) == (if x.lastActivity == v then [x] else []) + Tied(t, v)
    decreases |t|
  {
    if |t| == 0 || t[0].lastActivity <= x.lastActivity {
      TiedCons(x, t, v);
    } else {
      var rest := Insert(x, t[1..]);
      InsertStable(x, t[1..], v);
      TiedCons(t[0], rest, v);
      TiedCons(t[0], t[1..], v);
      assert [t[0]] + t[1..] == t;
    }
  }

  lemma TiedCons(a: ChatSession, r: seq<ChatSession>, v: real)
    ensures Tied([a] + r, v) == (if a.lastActivity == v then [a] else []) + Tied(r, v)
  {
    assert ([a] + r)[1..] == r;
  }

  /** The sort is stable: entries with the same activity time keep their
      relative order. */
  lemma {:induction false} SortStable(s: seq<ChatSession>, v: real)
    ensures Tied(SortByActivity(s), v) == Tied(s, v)
    decreases |s|
  {
    if |s| > 0 {
      SortStable(s[1..], v);
      InsertStable(s[0], SortByActivity(s[1..]), v);
    }
  }

  /** The sessions in dictionary order. */
  function SessionList(reg: Registry): seq<ChatSession>
    requires Valid(reg)
  {
    Lookup(reg.sessionOrder, reg.sessions)
  }

  /** `get_user_sessions`: the user's sessions (only those active within the
      hour when asked; by default all), most recent first, ties in creation
      order. */
  function GetUserSessions(reg: Registry, userId: string, now: real, activeOnly: bool := false): (r: seq<ChatSession>)
    requires Valid(reg)
    ensures Descending(r)
    ensures forall s :: s in r <==> s in reg.sessions.Values && Shown(s, userId, activeOnly, now)
    ensures |r| == |set k | k in reg.sessions && Shown(reg.sessions[k], userId, activeOnly, now)|
    ensures forall v :: Tied(r, v) == Tied(Filter(SessionList(reg), s => Shown(s, userId, activeOnly, now)), v)
  {
    var shown := (s: ChatSession) => Shown(s, userId, activeOnly, now);
    var listed := Filter(SessionList(reg), shown);
    var r := SortByActivity(listed);
    assert forall v :: Tied(r, v) == Tied(listed, v) by {
      forall v {
        SortStable(listed, v);
      }
    }
    assert forall s :: s in r <==> s in listed by {
      forall s
        ensures s in r <==> s in listed
      {
        assert s in r <==> s in multiset(r);
        assert s in listed <==> s in multiset(listed);
      }
    }
    FilterMembers(SessionList(reg), shown);
    assert forall s :: s in SessionList(reg) <==> s in reg.sessions.Values by {
      forall s
        ensures s in SessionList(reg) <==> s in reg.sessions.Values
      {
        if s in reg.sessions.Values {
          var k :| k in reg.sessions && reg.sessions[k] == s;
          var i :| 0 <= i < |reg.sessionOrder| && reg.sessionOrder[i] == k;
          assert SessionList(reg)[i] == s;
        }
      }
    }
    ShownCount(reg, shown, userId, activeOnly, now);
    assert |r| == |multiset(r)| == |multiset(listed)| == |listed|;
    r
  }

  /** The listed sessions are as many as the session ids they come from. */
  lemma ShownCount(reg: Registry, shown: ChatSession -> bool, userId: string, activeOnly: bool, now: real)
    requires Valid(reg)
    requires forall s :: shown(s) == Shown(s, userId, activeOnly, now)
    ensures |Filter(SessionList(reg), shown)| == |set k | k in reg.sessions && Shown(reg.sessions[k], userId, activeOnly, now)|
  {
    var keep := (k: string) => k in reg.sessions && shown(reg.sessions[k]);
    LookupFilter(reg.sessionOrder, reg.sessions, shown, keep);
    CountKeys(reg.sessionOrder, reg.sessions, keep,
              set k | k in reg.sessions && Shown(reg.sessions[k], userId, activeOnly, now));
  }

  /** Selecting values in key order is selecting the keys and then looking
      them up. */
  lemma {:induction false} LookupFilter<V>(order: seq<string>, m: map<string, V>, p: V -> bool, keep: string -> bool)
    requires forall k :: k in order ==> k in m
    requires forall k :: keep(k) == (k in m && p(m[k]))
    ensures |Filter(Lookup(order, m), p)| == |Filter(order, keep)|
    decreases |order|
  {
    if |order| > 0 {
      LookupFilter(order[1..], m, p, keep);
      assert Lookup(order, m)[1..] == Lookup(order[1..], m);
    }
  }

  /** The cutoff time of `cleanup_old_sessions`. */
  function Cutoff(maxAgeHours: int, now: real): real {
    now - (maxAgeHours * 3600) as real
  }

  /** `cleanup_old_sessions` (default 24 hours): removes exactly the sessions
      idle since before the cutoff and returns how many there were. */
  function CleanupOldSessions(reg: Registry, now: real, maxAgeHours: int := 24): (r: (nat, Registry))
    requires Valid(reg)
    ensures Valid(r.1)
    ensures forall k :: k in r.1.sessions <==> k in reg.sessions && reg.sessions[k].lastActivity >= Cutoff(maxAgeHours, now)
    ensures forall k :: k in r.1.sessions ==> r.1.sessions[k] == reg.sessions[k]
    ensures r.0 == |reg.sessions.Keys - r.1.sessions.Keys|
    ensures r.1.users == reg.users && r.1.userOrder == reg.userOrder
  {
    var cutoff := Cutoff(maxAgeHours, now);
    var idle := (k: string) => k in reg.sessions && reg.sessions[k].lastActivity < cutoff;
    var stale := Filter(reg.sessionOrder, idle);
    var (order, sessions) := Retain(reg.sessionOrder, reg.sessions, k => !idle(k));
    CountKeys(reg.sessionOrder, reg.sessions, idle, reg.sessions.Keys - sessions.Keys);
    (|stale|, reg.(sessions := sessions, sessionOrder := order))
  }

  /** `get_stats` without the data directory. */
  datatype Stats = Stats(totalUsers: nat, totalSessions: nat, activeSessions: nat)

  /** A session used within the last hour. */
  predicate Active(s: ChatSession, now: real) {
    s.lastActivity > now - 3600.0
  }

  function GetStats(reg: Registry, now: real): (st: Stats)
    requires Valid(reg)
    ensures st.totalUsers == |reg.users| && st.totalSessions == |reg.sessions|
    ensures st.activeSessions == |set k | k in reg.sessions && Active(reg.sessions[k], now)|
    ensures st.activeSessions <= st.totalSessions
  {
    var active := (s: ChatSession) => Active(s, now);
    var n := |Filter(SessionList(reg), active)|;
    var keep := (k: string) => k in reg.sessions && active(reg.sessions[k]);
    LookupFilter(reg.sessionOrder, reg.sessions, active, keep);
    var activeKeys := set k | k in reg.sessions && Active(reg.sessions[k], now);
    CountKeys(reg.sessionOrder, reg.sessions, keep, activeKeys);
    assert reg.sessions.Keys == activeKeys + (reg.sessions.Keys - activeKeys);
    Stats(|reg.users|, |reg.sessions|, n)
  }

  /** `delete_user`: refuses an unknown id; otherwise removes the user and
      every session of theirs, and nothing else. */
  function DeleteUser(reg: Registry, userId: string): (r: (bool, Registry))
    requires Valid(reg)
    ensures r.0 <==> userId in reg.users
    ensures !r.0 ==> r.1 == reg
    ensures Valid(r.1)
    ensures r.1.users.Keys == reg.users.Keys - {userId}
    ensures forall k :: k in r.1.users ==> r.1.users[k] == reg.users[k]
    ensures forall k :: k in r.1.sessions <==> k in reg.sessions && reg.sessions[k].userId != userId
    ensures forall k :: k in r.1.sessions ==> r.1.sessions[k] == reg.sessions[k]
  {
    if userId !in reg.users then (false, reg)
    else
      var (sorder, sessions) := Retain(reg.sessionOrder, reg.sessions,
                                       k => k in reg.sessions && reg.sessions[k].userId != userId);
      var (uorder, users) := Retain(reg.userOrder, reg.users, k => k != userId);
      (true, Registry(users, uorder, sessions, sorder))
  }

  /** The registry a manager starts with when no files exist. */
  const EmptyRegistry: Registry := Registry(map[], [], map[], [])

  /** A session created for a user disappears with that user. */
  lemma DeleteUserEndsSessions(reg: Registry, userId: string, metadata: Metadata, hex: string, now: real)
    requires Valid(reg) && userId in reg.users
    ensures var c := CreateSession(reg, userId, metadata, hex, now);
            && c.Success?
            && var d := DeleteUser(c.value.1, userId);
               d.0 && c.value.0 !in d.1.sessions && userId !in d.1.users
  {
  }

  /** Ending a session just created under a new id gives the sessions back
      as they were; the user keeps the raised session count. */
  lemma CreateThenEndSession(reg: Registry, userId: string, metadata: Metadata, hex: string, now: real)
    requires Valid(reg) && userId in reg.users && SessionId(hex) !in reg.sessions
    ensures var c := CreateSession(reg, userId, metadata, hex, now);
            && c.Success?
            && var e := EndSession(c.value.1, c.value.0);
               && e.0
               && e.1.sessions == reg.sessions
               && e.1.users[userId].totalSessions == reg.users[userId].totalSessions + 1
  {
    var c := CreateSession(reg, userId, metadata, hex, now);
    var e := EndSession(c.value.1, c.value.0);
    assert e.1.sessions.Keys == reg.sessions.Keys;
  }
}
