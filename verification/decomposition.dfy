/**
 What the three getters promise about one resolved principal name: which slice each of
 them returns in each case, when they throw, that the slices are disjoint and in order,
 that they reassemble into the name, and that composing a name from separator-free parts
 and splitting it again gives the parts back.

 "First occurrence" is the independent reference for Java's `indexOf` here
 (`JavaString.FirstOccurrence`), so the lemmas read as statements about the name itself.
 */
module Decomposition {
  import opened JavaString
  import opened SSOUtils

  /** Both separators are one character long. This is the default configuration, and
      the one in which the getters' one-character skips step over exactly the separator. */
  predicate SingleCharSeparators(seps: Separators)
  {
    |seps.realm| == 1 && |seps.component| == 1
  }

  /** The grammar `primary [ component-separator instance ] realm-separator realm`. */
  function Compose(primary: string, instance: Option<string>, realm: string, seps: Separators): string
  {
    primary
    + (match instance case Some(i) => seps.component + i case None => "")
    + seps.realm + realm
  }

  /** Without a realm separator the whole name is the realm, and there is neither
      primary nor instance. */
  lemma NoRealmSeparator(n: string, seps: Separators)
    requires !Contains(n, seps.realm)
    ensures Primary(Some(n), seps) == None
    ensures Instance(Some(n), seps) == Returns(None)
    ensures Realm(Some(n), seps) == Returns(Some(n))
  {
  }

  /** Realm separator first at `r` and no component separator before it: the primary is
      everything before `r` and there is no instance. */
  lemma PrimaryWithoutInstance(n: string, seps: Separators, r: int)
    requires FirstOccurrence(n, seps.realm, r)
    requires !Contains(n[..r], seps.component)
    ensures Primary(Some(n), seps) == Some(n[..r])
    ensures Instance(Some(n), seps) == Returns(None)
  {
    IndexOfIsFirstOccurrence(n, seps.realm, r);
  }

  /** Realm separator first at `r`, component separator first at `c` before it: the
      primary is everything before `c`, the instance everything from `c + 1` up to `r`. */
  lemma PrimaryAndInstance(n: string, seps: Separators, r: int, c: int)
    requires FirstOccurrence(n, seps.realm, r)
    requires FirstOccurrence(n[..r], seps.component, c)
    requires c < r
    ensures Primary(Some(n), seps) == Some(n[..c])
    ensures Instance(Some(n), seps) == Returns(Some(n[c + 1..r]))
  {
    IndexOfIsFirstOccurrence(n, seps.realm, r);
    IndexOfIsFirstOccurrence(n[..r], seps.component, c);
  }

  /** Only the first component separator splits: later ones stay inside the instance. */
  lemma InstanceKeepsLaterComponents(n: string, seps: Separators, r: int, c: int, d: int)
    requires FirstOccurrence(n, seps.realm, r)
    requires FirstOccurrence(n[..r], seps.component, c)
    requires c < d && d + |seps.component| <= r && OccursAt(n, seps.component, d)
    ensures Instance(Some(n), seps) == Returns(Some(n[c + 1..r]))
    ensures OccursAt(n[c + 1..r], seps.component, d - (c + 1))
  {
    PrimaryAndInstance(n, seps, r, c);
    OccursInSlice(n, seps.component, c + 1, r, d - (c + 1));
  }

  /** Realm separator first at `r`: the realm is everything after the character at `r`. */
  lemma RealmAfterSeparator(n: string, seps: Separators, r: int)
    requires FirstOccurrence(n, seps.realm, r)
    requires r < |n|
    ensures Realm(Some(n), seps) == Returns(Some(n[r + 1..]))
  {
    IndexOfIsFirstOccurrence(n, seps.realm, r);
  }

  /** `getKerberosInstance` throws exactly when the component separator is empty and the
      name starts with the realm separator: `substring(1, 0)`. */
  lemma InstanceThrowsExactly(name: Option<string>, seps: Separators)
    ensures Instance(name, seps).IndexOutOfBounds? <==>
            (name.Some? && seps.component == "" && seps.realm <= name.value)
  {
    if name.Some? {
      var n := name.value;
      var r := IndexOf(n, seps.realm);
      if seps.realm <= n {
        assert OccursAt(n, seps.realm, 0);
        IndexOfIsFirstOccurrence(n, seps.realm, 0);
      }
      if r != -1 && seps.component == "" {
        assert OccursAt(n[..r], "", 0);
        IndexOfIsFirstOccurrence(n[..r], "", 0);
      }
    }
  }

  /** `getKerberosRealm` throws exactly when the realm separator and the name are both
      empty: `"".substring(1)`. */
  lemma RealmThrowsExactly(name: Option<string>, seps: Separators)
    ensures Realm(name, seps).IndexOutOfBounds? <==> (name == Some("") && seps.realm == "")
  {
    if name.Some? && seps.realm == "" {
      assert OccursAt(name.value, "", 0);
      IndexOfIsFirstOccurrence(name.value, "", 0);
    }
  }

  /** With one-character separators and a realm separator present, the three parts put
      back together with their separators give the name again. */
  lemma Reassembly(n: string, seps: Separators)
    requires SingleCharSeparators(seps)
    requires Contains(n, seps.realm)
    ensures Primary(Some(n), seps).Some?
    ensures Instance(Some(n), seps).Returns?
    ensures Realm(Some(n), seps).Returns? && Realm(Some(n), seps).value.Some?
    ensures Compose(Primary(Some(n), seps).value, Instance(Some(n), seps).value,
                    Realm(Some(n), seps).value.value, seps) == n
  {
    var r := IndexOf(n, seps.realm);
    IndexOfIsFirstOccurrence(n, seps.realm, r);
    RealmAfterSeparator(n, seps, r);
    var c := IndexOf(n[..r], seps.component);
    if c == -1 {
      PrimaryWithoutInstance(n, seps, r);
      ComposeWithoutInstance(n, seps, r);
    } else {
      IndexOfIsFirstOccurrence(n[..r], seps.component, c);
      OccursInPrefix(n, seps.component, r, c);
      PrimaryAndInstance(n, seps, r, c);
      ComposeWithInstance(n, seps, r, c);
    }
  }

  /** Cutting out the one-character realm separator at `r` and composing again. */
  lemma ComposeWithoutInstance(n: string, seps: Separators, r: int)
    requires |seps.realm| == 1 && OccursAt(n, seps.realm, r)
    ensures Compose(n[..r], None, n[r + 1..], seps) == n
  {
    assert n == n[..r] + n[r..r + 1] + n[r + 1..];
  }

  /** Cutting out the one-character separators at `c` and `r` and composing again. */
  lemma ComposeWithInstance(n: string, seps: Separators, r: int, c: int)
    requires |seps.realm| == 1 && OccursAt(n, seps.realm, r)
    requires |seps.component| == 1 && OccursAt(n, seps.component, c) && c < r
    ensures Compose(n[..c], Some(n[c + 1..r]), n[r + 1..], seps) == n
  {
    assert n == n[..c] + n[c..c + 1] + n[c + 1..r] + n[r..r + 1] + n[r + 1..];
  }

  /** Splitting a name composed from parts gives the parts back, provided the separators
      are distinct single characters, the primary holds neither separator and the
      instance holds no realm separator. The realm may hold anything. */
  lemma DecomposeCompose(p: string, i: Option<string>, realm: string, seps: Separators)
    requires SingleCharSeparators(seps) && seps.realm != seps.component
    requires !Contains(p, seps.realm) && !Contains(p, seps.component)
    requires i.Some? ==> !Contains(i.value, seps.realm)
    ensures Primary(Some(Compose(p, i, realm, seps)), seps) == Some(p)
    ensures Instance(Some(Compose(p, i, realm, seps)), seps) == Returns(i)
    ensures Realm(Some(Compose(p, i, realm, seps)), seps) == Returns(Some(realm))
  {
    var rc, cc := seps.realm[0], seps.component[0];
    assert seps.realm == [rc] && seps.component == [cc];
    ContainsSingleChar(p, rc);
    ContainsSingleChar(p, cc);
    match i
    case None =>
      SplitComposedWithoutInstance(p, realm, seps);
    case Some(inst) =>
      ContainsSingleChar(inst, rc);
      SplitComposedWithInstance(p, inst, realm, seps);
  }

  /** `DecomposeCompose` for a name without instance. */
  lemma SplitComposedWithoutInstance(p: string, realm: string, seps: Separators)
    requires SingleCharSeparators(seps)
    requires seps.realm[0] !in p && seps.component[0] !in p
    ensures Primary(Some(Compose(p, None, realm, seps)), seps) == Some(p)
    ensures Instance(Some(Compose(p, None, realm, seps)), seps) == Returns(None)
    ensures Realm(Some(Compose(p, None, realm, seps)), seps) == Returns(Some(realm))
  {
    var n := Compose(p, None, realm, seps);
    assert seps.realm == [seps.realm[0]];
    assert n == p + seps.realm + realm;
    FirstCharAfter(p, seps.realm[0], realm);
    assert n[..|p|] == p && n[|p| + 1..] == realm;
    assert seps.component == [seps.component[0]];
    ContainsSingleChar(p, seps.component[0]);
    PrimaryWithoutInstance(n, seps, |p|);
    RealmAfterSeparator(n, seps, |p|);
  }

  /** `DecomposeCompose` for a name with an instance. */
  lemma SplitComposedWithInstance(p: string, inst: string, realm: string, seps: Separators)
    requires SingleCharSeparators(seps) && seps.realm != seps.component
    requires seps.realm[0] !in p && seps.component[0] !in p && seps.realm[0] !in inst
    ensures Primary(Some(Compose(p, Some(inst), realm, seps)), seps) == Some(p)
    ensures Instance(Some(Compose(p, Some(inst), realm, seps)), seps) == Returns(Some(inst))
    ensures Realm(Some(Compose(p, Some(inst), realm, seps)), seps) == Returns(Some(realm))
  {
    var rc, cc := seps.realm[0], seps.component[0];
    assert seps.realm == [rc] && seps.component == [cc];
    var n := Compose(p, Some(inst), realm, seps);
    var before := p + [cc] + inst;
    assert rc !in before;
    assert n == before + [rc] + realm;
    FirstCharAfter(before, rc, realm);
    FirstCharAfter(p, cc, inst);
    var r := |before|;
    assert n[..r] == before && n[r + 1..] == realm;
    assert n[..|p|] == p && n[|p| + 1..r] == inst;
    PrimaryAndInstance(n, seps, r, |p|);
    RealmAfterSeparator(n, seps, r);
  }

  /** For non-empty separators the primary contains neither separator. */
  lemma PrimaryHasNoSeparator(n: string, seps: Separators)
    requires seps.realm != "" && seps.component != ""
    requires Primary(Some(n), seps).Some?
    ensures !Contains(Primary(Some(n), seps).value, seps.realm)
    ensures !Contains(Primary(Some(n), seps).value, seps.component)
  {
    var p := Primary(Some(n), seps).value;
    var r := IndexOf(n, seps.realm);
    var c := IndexOf(n[..r], seps.component);
    var e := if c != -1 then c else r;
    assert p == n[..e] == n[..r][..e];
    forall j | 0 <= j <= |p|
      ensures !OccursAt(p, seps.realm, j) && !OccursAt(p, seps.component, j)
    {
      OccursInPrefix(n, seps.realm, e, j);
      OccursInPrefix(n[..r], seps.component, e, j);
    }
  }

  /** For a non-empty realm separator the instance contains no realm separator. */
  lemma InstanceHasNoRealmSeparator(n: string, seps: Separators)
    requires seps.realm != ""
    requires Instance(Some(n), seps).Returns? && Instance(Some(n), seps).value.Some?
    ensures !Contains(Instance(Some(n), seps).value.value, seps.realm)
  {
    var i := Instance(Some(n), seps).value.value;
    var r := IndexOf(n, seps.realm);
    var c := IndexOf(n[..r], seps.component);
    assert i == n[c + 1..r];
    forall j | 0 <= j <= |i|
      ensures !OccursAt(i, seps.realm, j)
    {
      OccursInSlice(n, seps.realm, c + 1, r, j);
    }
  }

  /** For non-empty separators and a realm separator present, primary, instance and realm
      are disjoint slices of the name, in that order, each pair separated by at least
      one character. */
  lemma Spans(n: string, seps: Separators) returns (primaryEnd: nat, instanceStart: nat, realmStart: nat)
    requires seps.realm != "" && seps.component != ""
    requires Contains(n, seps.realm)
    ensures primaryEnd < realmStart <= |n|
    ensures Primary(Some(n), seps) == Some(n[..primaryEnd])
    ensures Realm(Some(n), seps) == Returns(Some(n[realmStart..]))
    ensures Instance(Some(n), seps).Returns?
    ensures Instance(Some(n), seps).value.Some? ==>
              primaryEnd < instanceStart <= realmStart - 1 &&
              Instance(Some(n), seps).value.value == n[instanceStart..realmStart - 1]
    ensures Instance(Some(n), seps).value.None? ==> primaryEnd == realmStart - 1
  {
    var r := IndexOf(n, seps.realm);
    IndexOfIsFirstOccurrence(n, seps.realm, r);
    RealmAfterSeparator(n, seps, r);
    var c := IndexOf(n[..r], seps.component);
    realmStart := r + 1;
    if c == -1 {
      PrimaryWithoutInstance(n, seps, r);
      primaryEnd, instanceStart := r, r;
    } else {
      IndexOfIsFirstOccurrence(n[..r], seps.component, c);
      OccursInPrefix(n, seps.component, r, c);
      PrimaryAndInstance(n, seps, r, c);
      primaryEnd, instanceStart := c, c + 1;
    }
  }

  /** The getters skip one character after each separator, so a longer separator leaves
      its tail at the start of the realm (and of the instance). */
  lemma LongSeparatorsLeaveTheirTail(n: string, seps: Separators)
    requires seps.realm != "" && Contains(n, seps.realm)
    ensures Realm(Some(n), seps).Returns? && Realm(Some(n), seps).value.Some?
    ensures seps.realm[1..] <= Realm(Some(n), seps).value.value
    ensures seps.component != "" && Instance(Some(n), seps).Returns? &&
            Instance(Some(n), seps).value.Some? ==>
              seps.component[1..] <= Instance(Some(n), seps).value.value
  {
    var r := IndexOf(n, seps.realm);
    IndexOfIsFirstOccurrence(n, seps.realm, r);
    RealmAfterSeparator(n, seps, r);
    TailFollowsOccurrence(n, seps.realm, r, |n|);
    assert n[r + 1..|n|] == n[r + 1..];
    var c := IndexOf(n[..r], seps.component);
    if seps.component != "" && c != -1 {
      IndexOfIsFirstOccurrence(n[..r], seps.component, c);
      OccursInPrefix(n, seps.component, r, c);
      PrimaryAndInstance(n, seps, r, c);
      TailFollowsOccurrence(n, seps.component, c, r);
    }
  }

  /** After an occurrence of `pat` at `k`, the text from `k + 1` starts with the rest of `pat`. */
  lemma TailFollowsOccurrence(s: string, pat: string, k: int, end: int)
    requires |pat| >= 1 && OccursAt(s, pat, k) && k + |pat| <= end <= |s|
    ensures pat[1..] <= s[k + 1..end]
  {
    forall t | 0 <= t < |pat| - 1
      ensures pat[1..][t] == s[k + 1..end][t]
    {
      assert pat[1 + t] == s[k..k + |pat|][1 + t];
    }
  }
}
