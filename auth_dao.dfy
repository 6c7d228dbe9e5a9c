/** The user and block queries of app/auth/dao.py and the generic
    `find_one_or_none` they inherit, as functions of the tables. None of
    them orders its rows, so each keeps the table's order. */
module AuthDao {
  import opened Common
  import opened Models
  import opened Ordering

  // ---------------------------------------------------------------------
  // find_users_for_chat
  // ---------------------------------------------------------------------

  function IdIsOneOf(a: UserId, b: UserId): User -> bool
  {
    (u: User) => u.id == a || u.id == b
  }

  /** `WHERE id = a OR id = b`. */
  function FindUsersForChat(users: seq<User>, a: UserId, b: UserId): (r: seq<User>)
    ensures forall u :: u in r <==> u in users && (u.id == a || u.id == b)
  {
    var p := IdIsOneOf(a, b);
    assert forall u :: p(u) == (u.id == a || u.id == b);
    Filter(users, p)
  }

  lemma FirstIdNotInRest(users: seq<User>)
    requires ValidUsers(users) && users != []
    ensures FindUser(users[1..], users[0].id).None?
  {
    forall j | 0 <= j < |users[1..]| ensures users[1..][j].id != users[0].id {
      assert users[1..][j] == users[j + 1];
    }
  }

  /** Since `id` is the primary key, the query returns one row for each of
      the two ids that has a user, and only one row when both ids are the
      same: at most two rows in all. */
  lemma {:induction false} ForChatCount(users: seq<User>, a: UserId, b: UserId)
    requires ValidUsers(users)
    ensures |FindUsersForChat(users, a, b)|
         == (if FindUser(users, a).Some? then 1 else 0) + (if a != b && FindUser(users, b).Some? then 1 else 0)
    ensures |FindUsersForChat(users, a, b)| <= 2
  {
    if users != [] {
      var u, rest := users[0], users[1..];
      assert users == [u] + rest;
      FilterCons(u, rest, IdIsOneOf(a, b));
      ForChatCount(rest, a, b);
      FirstIdNotInRest(users);
    }
  }

  // ---------------------------------------------------------------------
  // find_by_username: ILIKE '%' || username || '%'
  // ---------------------------------------------------------------------

  /** SQL LIKE: `%` matches any run of characters, `_` any one character,
      and a backslash makes the character after it literal. */
  predicate LikeMatch(p: string, s: string)
    decreases |p| + |s|
  {
    if p == [] then s == []
    else if p[0] == '%' then LikeMatch(p[1..], s) || (s != [] && LikeMatch(p, s[1..]))
    else if p[0] == '_' then s != [] && LikeMatch(p[1..], s[1..])
    else if p[0] == '\\' && |p| >= 2 then s != [] && s[0] == p[1] && LikeMatch(p[2..], s[1..])
    else s != [] && s[0] == p[0] && LikeMatch(p[1..], s[1..])
  }

  /** ILIKE: LIKE after lower-casing both sides. */
  predicate ILike(s: string, p: string)
  {
    LikeMatch(Lower(p), Lower(s))
  }

  function UsernamePattern(query: string): string
  {
    "%" + query + "%"
  }

  /** A query with none of LIKE's special characters. */
  predicate LikeFree(q: string)
  {
    forall i :: 0 <= i < |q| ==> q[i] != '%' && q[i] != '_' && q[i] != '\\'
  }

  lemma {:induction false} PercentMatchesAll(s: string)
    ensures LikeMatch("%", s)
    decreases |s|
  {
    if s != [] {
      PercentMatchesAll(s[1..]);
    }
  }

  /** Without special characters, `q%` matches exactly the texts starting with `q`. */
  lemma {:induction false} LiteralThenPercent(q: string, s: string)
    requires LikeFree(q)
    ensures LikeMatch(q + "%", s) <==> q <= s
    decreases |q|
  {
    if q == [] {
      assert q + "%" == "%";
      PercentMatchesAll(s);
    } else {
      var p := q + "%";
      assert p[0] == q[0] && p[1..] == q[1..] + "%";
      if s != [] {
        LiteralThenPercent(q[1..], s[1..]);
        assert q <= s <==> q[0] == s[0] && q[1..] <= s[1..];
      }
    }
  }

  /** Without special characters, the search pattern `%q%` matches exactly
      the texts that contain `q`. */
  lemma {:induction false} PatternIsInfix(q: string, s: string)
    requires LikeFree(q)
    ensures LikeMatch(UsernamePattern(q), s) <==> HasInfix(q, s)
    decreases |s|
  {
    var p := UsernamePattern(q);
    assert p[0] == '%' && p[1..] == q + "%";
    LiteralThenPercent(q, s);
    if s != [] {
      PatternIsInfix(q, s[1..]);
    }
  }

  lemma LowerLikeFree(q: string)
    requires LikeFree(q)
    ensures LikeFree(Lower(q))
  {
  }

  lemma LowerPattern(q: string)
    ensures Lower(UsernamePattern(q)) == UsernamePattern(Lower(q))
  {
  }

  function UsernameMatches(query: string): User -> bool
  {
    (u: User) => ILike(u.username, UsernamePattern(query))
  }

  /** `WHERE username ILIKE '%query%' LIMIT limit OFFSET offset`. */
  function FindByUsername(users: seq<User>, query: string, limit: nat, offset: nat): seq<User>
  {
    Take(Drop(Filter(users, UsernameMatches(query)), offset), limit)
  }

  /** A page holds at most `limit` users, each matching the pattern, and is
      the run of matching users that starts after the first `offset`; when
      the query has no `%`, `_` or backslash, matching means the username
      contains the query, ignoring case. */
  lemma FindByUsernamePage(users: seq<User>, query: string, limit: nat, offset: nat)
    ensures var r := FindByUsername(users, query, limit, offset);
      var all := Filter(users, UsernameMatches(query));
      && |r| <= limit
      && (forall i :: 0 <= i < |r| ==> offset + i < |all| && r[i] == all[offset + i])
      && (|r| < limit ==> offset + |r| >= |all|)
      && (forall u :: u in r ==> u in users && ILike(u.username, UsernamePattern(query)))
      && (LikeFree(query) ==> forall u :: u in r ==> HasInfix(Lower(query), Lower(u.username)))
  {
    var r := FindByUsername(users, query, limit, offset);
    var all := Filter(users, UsernameMatches(query));
    var d := Drop(all, offset);
    assert forall i :: 0 <= i < |r| ==> r[i] == d[i];
    forall u | u in r
      ensures u in users && ILike(u.username, UsernamePattern(query))
      ensures LikeFree(query) ==> HasInfix(Lower(query), Lower(u.username))
    {
      var i :| 0 <= i < |r| && r[i] == u;
      assert all[offset + i] == u;
      assert u in all;
      assert UsernameMatches(query)(u);
      if LikeFree(query) {
        LowerPattern(query);
        LowerLikeFree(query);
        PatternIsInfix(Lower(query), Lower(u.username));
      }
    }
  }

  /** `_` in a search is a wildcard: the query "_" matches every non-empty
      username, so a search for a literal underscore lists everybody. */
  lemma UnderscoreMatchesEveryone(name: string)
    requires name != []
    ensures ILike(name, UsernamePattern("_"))
  {
    var s := Lower(name);
    assert Lower(UsernamePattern("_")) == "%_%";
    assert "%_%"[1..] == "_%";
    assert "_%"[1..] == "%";
    PercentMatchesAll(s[1..]);
  }

  // ---------------------------------------------------------------------
  // find_by_email_or_username and the block lookups
  // ---------------------------------------------------------------------

  function EmailOrUsername(email: string, username: string): User -> bool
  {
    (u: User) => u.email == email || u.username == username
  }

  /** `WHERE email = e OR username = n`, through scalar_one_or_none. */
  function FindByEmailOrUsername(users: seq<User>, email: string, username: string): Lookup<User>
  {
    OneOrNone(Filter(users, EmailOrUsername(email, username)))
  }

  /** The lookup finds nothing exactly when no user has the email or the
      username; a single row is such a user; and since both columns are
      unique, several rows means one user holds the email and another the
      username. */
  lemma EmailOrUsernameLookup(users: seq<User>, email: string, username: string)
    requires ValidUsers(users)
    ensures var l := FindByEmailOrUsername(users, email, username);
      && (l.NoRow? <==> forall u :: u in users ==> u.email != email && u.username != username)
      && (l.OneRow? ==> l.row in users && (l.row.email == email || l.row.username == username))
      && (l.ManyRows? ==> exists u1, u2 :: u1 in users && u2 in users && u1 != u2 && u1.email == email && u2.username == username)
  {
    var p := EmailOrUsername(email, username);
    var f := Filter(users, p);
    assert forall u :: u in f <==> u in users && (u.email == email || u.username == username);
    if |f| >= 2 {
      var u1, u2 := f[0], f[1];
      assert u1 in f && u2 in f;
      assert f[0] != f[1] by {
        FilterUnique(users, p, (u: User) => u.id);
        assert UniqueBy(users, (u: User) => u.id) by {
          forall i, j | 0 <= i < j < |users| ensures users[i].id != users[j].id {
          }
        }
      }
      assert u1 in users && u2 in users;
      if !(u1.email == email && u2.username == username) {
        assert u2.email == email && u1.username == username;
      }
    }
  }

  function BlockedUserIs(id: UserId): Block -> bool
  {
    (b: Block) => b.blockedUserId == id
  }

  /** `BlockDao.find_one_or_none(blocked_user_id=id)`. */
  function FindBlockOf(blocks: seq<Block>, id: UserId): (r: Lookup<Block>)
    ensures r.NoRow? <==> forall b :: b in blocks ==> b.blockedUserId != id
    ensures r.OneRow? ==> r.row in blocks && r.row.blockedUserId == id
  {
    var f := Filter(blocks, BlockedUserIs(id));
    assert forall b :: b in f <==> b in blocks && b.blockedUserId == id;
    assert f != [] ==> f[0] in f;
    OneOrNone(f)
  }

  /** `BlockDao.find_one_or_none()` with no filter: the one row of the whole
      table, if it has exactly one. */
  function AnyBlock(blocks: seq<Block>): (r: Lookup<Block>)
    ensures r.NoRow? <==> blocks == []
    ensures r.OneRow? <==> |blocks| == 1
  {
    OneOrNone(blocks)
  }
}
