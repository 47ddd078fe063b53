/** The names of service accounts and role bindings (api/kubernetes/cli/naming.go). */
module ClusterNames {
  import opened Text

  const DEFAULT_NAMESPACE := "default"
  const PORTAINER_NAMESPACE := "portainer"

  /** %d */
  function FormatInt(n: int): string {
    if n < 0 then "-" + Decimal(-n) else Decimal(n)
  }

  function UserServiceAccountName(userId: int, instanceId: string): string {
    "portainer-sa-user" + "-" + instanceId + "-" + FormatInt(userId)
  }

  function RoleBindingName(namespace: string, instanceId: string): string {
    "portainer-rb" + "-" + instanceId + "-" + namespace
  }

  lemma FormatIntSign(n: int)
    ensures FormatInt(n) != "" && (FormatInt(n)[0] == '-' <==> n < 0)
    ensures n < 0 ==> FormatInt(n)[1..] == Decimal(-n)
  {
    ValueOfDecimal(if n < 0 then -n else n);
  }

  lemma FormatIntInjective(m: int, n: int)
    requires FormatInt(m) == FormatInt(n)
    ensures m == n
  {
    hide Decimal;
    FormatIntSign(m);
    FormatIntSign(n);
    if m < 0 {
      DecimalInjective(-m, -n);
    } else {
      DecimalInjective(m, n);
    }
  }

  lemma CancelPrefix(a: string, x: string, y: string)
    requires a + x == a + y
    ensures x == y
  {
    assert x == (a + x)[|a|..];
    assert y == (a + y)[|a|..];
  }

  /** Within one instance, different users have different accounts and different namespaces have
      different role bindings. */
  lemma NamesInjective(instanceId: string, u: int, v: int, n: string, m: string)
    ensures UserServiceAccountName(u, instanceId) == UserServiceAccountName(v, instanceId) <==> u == v
    ensures RoleBindingName(n, instanceId) == RoleBindingName(m, instanceId) <==> n == m
  {
    if UserServiceAccountName(u, instanceId) == UserServiceAccountName(v, instanceId) {
      CancelPrefix("portainer-sa-user" + "-" + instanceId + "-", FormatInt(u), FormatInt(v));
      FormatIntInjective(u, v);
    }
    if RoleBindingName(n, instanceId) == RoleBindingName(m, instanceId) {
      CancelPrefix("portainer-rb" + "-" + instanceId + "-", n, m);
    }
  }

  /** The last dash separates the same parts. */
  lemma LastDashUnique(i: string, a: string, j: string, b: string)
    requires '-' !in a && '-' !in b && i + "-" + a == j + "-" + b
    ensures i == j && a == b
  {
    var x, y := i + "-" + a, j + "-" + b;
    LastDash(i, a);
    LastDash(j, b);
    assert x[|i|] == '-' && y[|j|] == '-';
    assert |i| == |j|;
    assert i == x[..|i|] && j == y[..|j|];
    assert a == x[|i| + 1..] && b == y[|j| + 1..];
  }

  lemma LastDash(i: string, a: string)
    requires '-' !in a
    ensures (i + "-" + a)[|i|] == '-'
    ensures forall k | |i| < k < |i + "-" + a| :: (i + "-" + a)[k] != '-'
  {
  }

  /** Across instances, account names of stored users (whose ids are never negative) still tell both
      the instance and the user. */
  lemma AccountNamesInjective(i: string, u: nat, j: string, v: nat)
    requires UserServiceAccountName(u, i) == UserServiceAccountName(v, j)
    ensures i == j && u == v
  {
    hide Decimal;
    var p, a, b := "portainer-sa-user" + "-", Decimal(u), Decimal(v);
    ValueOfDecimal(u);
    ValueOfDecimal(v);
    assert UserServiceAccountName(u, i) == p + (i + "-" + a);
    assert UserServiceAccountName(v, j) == p + (j + "-" + b);
    CancelPrefix(p, i + "-" + a, j + "-" + b);
    LastDashUnique(i, a, j, b);
    DecimalInjective(u, v);
  }

  /** Two dash-separated names agree exactly if one front part continues the other, and takes as much
      from the back part. */
  lemma DashedAgreeIff(i: string, a: string, j: string, b: string)
    requires |i| < |j|
    ensures i + "-" + a == j + "-" + b <==> exists s :: j == i + "-" + s && a == s + "-" + b
  {
    var x, y := i + "-" + a, j + "-" + b;
    if x == y {
      var s := j[|i| + 1..];
      assert j == y[..|j|] && i == y[..|i|] && y[|i|] == '-';
      assert j == i + "-" + s;
      assert a == x[|i| + 1..] == y[|i| + 1..];
      assert y == i + "-" + (s + "-" + b);
    }
    if exists s :: j == i + "-" + s && a == s + "-" + b {
      var s :| j == i + "-" + s && a == s + "-" + b;
      assert x == i + "-" + s + "-" + b;
    }
  }

  lemma DashedSameLength(i: string, a: string, j: string, b: string)
    requires |i| == |j|
    ensures i + "-" + a == j + "-" + b <==> i == j && a == b
  {
    if i + "-" + a == j + "-" + b {
      assert i == (i + "-" + a)[..|i|] == j;
      CancelPrefix(i + "-", a, b);
    }
  }

  lemma DropPrefix(a: string, x: string, y: string)
    ensures a + x == a + y <==> x == y
  {
    if a + x == a + y {
      CancelPrefix(a, x, y);
    }
  }

  /** Instance ids are UUIDs, all of one length: across instances, too, the names tell the instance and
      the namespace, or the instance and the user. */
  lemma NamesInjectiveAcrossInstances(i: string, j: string, n: string, m: string, u: int, v: int)
    requires |i| == |j|
    ensures RoleBindingName(n, i) == RoleBindingName(m, j) <==> i == j && n == m
    ensures UserServiceAccountName(u, i) == UserServiceAccountName(v, j) <==> i == j && u == v
  {
    hide FormatInt;
    RoleBindingNameParts(n, i);
    RoleBindingNameParts(m, j);
    DropPrefix("portainer-rb-", i + "-" + n, j + "-" + m);
    DashedSameLength(i, n, j, m);
    AccountNameParts(u, i);
    AccountNameParts(v, j);
    DropPrefix("portainer-sa-user-", i + "-" + FormatInt(u), j + "-" + FormatInt(v));
    DashedSameLength(i, FormatInt(u), j, FormatInt(v));
    if FormatInt(u) == FormatInt(v) {
      FormatIntInjective(u, v);
    }
  }

  lemma RoleBindingNameParts(namespace: string, instanceId: string)
    ensures RoleBindingName(namespace, instanceId) == "portainer-rb-" + (instanceId + "-" + namespace)
  {
  }

  lemma AccountNameParts(userId: int, instanceId: string)
    ensures UserServiceAccountName(userId, instanceId) == "portainer-sa-user-" + (instanceId + "-" + FormatInt(userId))
  {
    hide FormatInt;
  }

  /** With instance ids of different lengths role binding names collide exactly if the longer id
      continues the shorter one with a part of the namespace. */
  lemma RoleBindingNamesCollideIff(i: string, j: string, n: string, m: string)
    requires |i| < |j|
    ensures RoleBindingName(n, i) == RoleBindingName(m, j) <==> exists s :: j == i + "-" + s && n == s + "-" + m
  {
    RoleBindingNameParts(n, i);
    RoleBindingNameParts(m, j);
    DropPrefix("portainer-rb-", i + "-" + n, j + "-" + m);
    DashedAgreeIff(i, n, j, m);
  }

  /** And account names exactly if the longer id ends in a further dash and the user ids are n and -n. */
  lemma AccountNamesCollideIff(i: string, j: string, u: int, v: int)
    requires |i| < |j|
    ensures UserServiceAccountName(u, i) == UserServiceAccountName(v, j) <==> j == i + "-" && u < 0 && v == -u
  {
    hide FormatInt, Decimal;
    AccountNameParts(u, i);
    AccountNameParts(v, j);
    DropPrefix("portainer-sa-user-", i + "-" + FormatInt(u), j + "-" + FormatInt(v));
    DashedAgreeIff(i, FormatInt(u), j, FormatInt(v));
    forall s
      ensures FormatInt(u) == s + "-" + FormatInt(v) <==> s == "" && u < 0 && v == -u
    {
      FormatIntDash(u, s, v);
    }
    assert i + "-" + "" == i + "-";
  }

  /** A printed number has a dash only in front. */
  lemma FormatIntDash(u: int, s: string, v: int)
    ensures FormatInt(u) == s + "-" + FormatInt(v) <==> s == "" && u < 0 && v == -u
  {
    hide Decimal;
    FormatIntSign(u);
    FormatIntSign(v);
    ValueOfDecimal(if u < 0 then -u else u);
    var t := s + "-" + FormatInt(v);
    assert t[|s|] == '-' && t[|s| + 1..] == FormatInt(v);
    if FormatInt(u) == t {
      assert s == "";
      assert FormatInt(v) == Decimal(-u);
      FormatIntInjective(v, -u);
    }
    if s == "" && u < 0 && v == -u {
      assert t == "-" + Decimal(-u);
    }
  }
}
