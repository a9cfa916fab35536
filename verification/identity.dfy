/** `CustomUserDetailsService`: resolves a user name to the principal Spring
    Security authenticates against. */
module Identity {
  import opened Wrappers
  import opened Domain

  /** The principal: user name, stored password hash and authority names. */
  datatype UserDetails = UserDetails(username: string, password: string, authorities: seq<string>)

  datatype LoadError = UsernameNotFound(username: string)

  /** The `map(role -> new SimpleGrantedAuthority(role.getName()))` stream. */
  function RoleNames(roles: seq<Role>): (names: seq<string>)
    ensures |names| == |roles|
    ensures forall i :: 0 <= i < |roles| ==> names[i] == roles[i].name
  {
    if |roles| == 0 then [] else [roles[0].name] + RoleNames(roles[1..])
  }

  /** `String.compareTo(a, b) < 0`: lexicographic by character, a proper
      prefix first. */
  predicate Before(a: string, b: string)
    decreases |a|
  {
    if |a| == 0 then |b| > 0
    else |b| > 0 && (a[0] < b[0] || (a[0] == b[0] && Before(a[1..], b[1..])))
  }

  lemma {:induction false} BeforeIrreflexive(a: string)
    ensures !Before(a, a)
    decreases |a|
  {
    if |a| > 0 {
      BeforeIrreflexive(a[1..]);
    }
  }

  lemma {:induction false} BeforeTransitive(a: string, b: string, c: string)
    requires Before(a, b) && Before(b, c)
    ensures Before(a, c)
    decreases |a|
  {
    if |a| > 0 && a[0] == b[0] && b[0] == c[0] {
      BeforeTransitive(a[1..], b[1..], c[1..]);
    }
  }

  lemma {:induction false} BeforeTotal(a: string, b: string)
    requires a != b
    ensures Before(a, b) || Before(b, a)
    decreases |a|
  {
    if |a| > 0 && |b| > 0 && a[0] == b[0] {
      assert a == [a[0]] + a[1..] && b == [b[0]] + b[1..];
      BeforeTotal(a[1..], b[1..]);
    }
  }

  lemma {:induction false} BeforeAsymmetric(a: string, b: string)
    requires Before(a, b)
    ensures !Before(b, a)
  {
    if Before(b, a) {
      BeforeTransitive(a, b, a);
      BeforeIrreflexive(a);
    }
  }

  /** Strictly increasing under `compareTo`: sorted and without duplicates. */
  ghost predicate StrictlySorted(s: seq<string>) {
    forall i, j :: 0 <= i < j < |s| ==> Before(s[i], s[j])
  }

  /** `TreeSet.add` on the sorted authority set: an equal name is not added
      twice. */
  function InsertName(x: string, s: seq<string>): (r: seq<string>)
    requires StrictlySorted(s)
    ensures StrictlySorted(r)
    ensures forall n :: n in r <==> n == x || n in s
  {
    if |s| == 0 then [x]
    else if x == s[0] then s
    else if Before(x, s[0]) then
      var r := [x] + s;
      assert StrictlySorted(r) by {
        forall i, j | 0 <= i < j < |r| ensures Before(r[i], r[j]) {
          assert r[j] == s[j - 1];
          if i == 0 {
            if j > 1 { BeforeTransitive(x, s[0], s[j - 1]); }
          } else {
            assert r[i] == s[i - 1];
          }
        }
      }
      r
    else
      BeforeTotal(x, s[0]);
      var tail := s[1..];
      var rest := InsertName(x, tail);
      var r := [s[0]] + rest;
      assert forall k :: 0 <= k < |rest| ==> Before(s[0], rest[k]) by {
        forall k | 0 <= k < |rest| ensures Before(s[0], rest[k]) {
          assert rest[k] in rest;
          if rest[k] != x {
            assert rest[k] in tail;
            var m :| 0 <= m < |tail| && tail[m] == rest[k];
            assert s[m + 1] == tail[m];
          }
        }
      }
      assert StrictlySorted(r) by {
        forall i, j | 0 <= i < j < |r| ensures Before(r[i], r[j]) {
          assert r[j] == rest[j - 1];
          if i > 0 { assert r[i] == rest[i - 1]; }
        }
      }
      r
  }

  /** `User.builder().authorities(...)`: Spring keeps the authorities in a
      set ordered by name, so duplicates collapse and the member's role order
      (a `HashSet`) plays no part. */
  function SortAuthorities(names: seq<string>): (r: seq<string>)
    ensures StrictlySorted(r)
    ensures forall n :: n in r <==> n in names
  {
    if |names| == 0 then [] else InsertName(names[0], SortAuthorities(names[1..]))
  }

  function Authorities(roles: seq<Role>): seq<string> {
    SortAuthorities(RoleNames(roles))
  }

  /** Two strictly sorted sequences with the same elements are equal. */
  lemma {:induction false} SortedUnique(a: seq<string>, b: seq<string>)
    requires StrictlySorted(a) && StrictlySorted(b)
    requires forall n :: n in a <==> n in b
    ensures a == b
    decreases |a| + |b|, if |a| > 0 then 0 else 1
  {
    if |a| > 0 {
      assert a[0] in b;
      assert b[0] in a;
      if a[0] != b[0] {
        var k :| 0 < k < |b| && b[k] == a[0];
        var m :| 0 < m < |a| && a[m] == b[0];
        BeforeAsymmetric(a[0], b[0]);
        assert false;
      }
      var ta, tb := a[1..], b[1..];
      forall n ensures n in ta <==> n in tb {
        if n in ta {
          var i :| 0 <= i < |ta| && ta[i] == n;
          assert a[i + 1] == n && Before(a[0], n);
          BeforeIrreflexive(n);
          assert n in b && n != b[0];
          var k :| 0 <= k < |b| && b[k] == n;
          assert tb[k - 1] == n;
        }
        if n in tb {
          var i :| 0 <= i < |tb| && tb[i] == n;
          assert b[i + 1] == n && Before(b[0], n);
          BeforeIrreflexive(n);
          assert n in a && n != a[0];
          var k :| 0 <= k < |a| && a[k] == n;
          assert ta[k - 1] == n;
        }
      }
      SortedUnique(a[1..], b[1..]);
      assert a == [a[0]] + a[1..] && b == [b[0]] + b[1..];
    } else if |b| > 0 {
      SortedUnique(b, a);
    }
  }

  /** The authorities depend only on the set of role names: neither the
      order of the member's roles nor repeated names change them. */
  lemma {:induction false} AuthoritiesIgnoreRoleOrder(r1: seq<Role>, r2: seq<Role>)
    requires forall n :: n in RoleNames(r1) <==> n in RoleNames(r2)
    ensures Authorities(r1) == Authorities(r2)
  {
    SortedUnique(Authorities(r1), Authorities(r2));
  }

  function LoadUserByUsername(members: seq<MemberRecord>, username: string): (r: Result<UserDetails, LoadError>)
    ensures r.Err? <==> forall j :: 0 <= j < |members| ==> members[j].username != username
    ensures r.Err? ==> r.error == UsernameNotFound(username)
    ensures r.Ok? ==> exists i :: (0 <= i < |members| && members[i].username == username
                                   && r.value.password == members[i].passwordHash
                                   && r.value.authorities == Authorities(members[i].roles))
    ensures r.Ok? ==> StrictlySorted(r.value.authorities)
    ensures r.Ok? ==> r.value.username == username
  {
    match FindByUsername(members, username)
    case None => Err(UsernameNotFound(username))
    case Some(i) =>
      var m := members[i];
      Ok(UserDetails(m.username, m.passwordHash, Authorities(m.roles)))
  }
}
