/**
 Spark's single sign-on helpers: choosing the Kerberos principal name after a login,
 defaulting the configured SSO method, and splitting a resolved principal name
 `primary/instance@REALM` into its primary, instance and realm.

 The three getters take the already-resolved name and the two separators as parameters;
 each mirrors the Java method step for step, including the `substring` calls that can throw.
 */
module SSOUtils {
  import opened JavaString

  /** The realm separator (property `kerberos.realm-separator`) and the component
      separator (property `kerberos.component-separator`). */
  datatype Separators = Separators(realm: string, component: string)

  /** The separators used when neither property is set. */
  const DefaultSeparators := Separators("@", "/")

  /** What the login step hands back: a failure with its message, or the names of the
      principals of the authenticated subject, in the subject's iteration order. */
  datatype LoginOutcome = LoginFailed(message: string) | LoggedIn(principalNames: seq<string>)

  /** The source's test `name.indexOf("@") != -1`: the `@` here is hard-coded and is not
      the configurable realm separator. */
  predicate HasAtSign(name: string)
  {
    IndexOf(name, "@") != -1
  }

  /** The loop over the subject's principals: the first name that contains `@`, or null. */
  function FirstNameWithAtSign(names: seq<string>): (r: Option<string>)
    ensures r.None? <==> forall k :: 0 <= k < |names| ==> '@' !in names[k]
    ensures r.Some? ==>
              exists k :: 0 <= k < |names| && names[k] == r.value && '@' in names[k] &&
                          forall j :: 0 <= j < k ==> '@' !in names[j]
  {
    if |names| == 0 then None
    else
      ContainsSingleChar(names[0], '@');
      if HasAtSign(names[0]) then Some(names[0])
      else FirstNameWithAtSign(names[1..])
  }

  /** The non-Windows branch of `getKerberosName` once the login has been attempted:
      a failed login yields null, otherwise the first principal name containing `@`. */
  function KerberosName(login: LoginOutcome): (name: Option<string>)
    ensures login.LoginFailed? ==> name.None?
    ensures name.Some? ==> login.LoggedIn? && name.value in login.principalNames && '@' in name.value
    ensures (login.LoggedIn? &&
             exists k :: 0 <= k < |login.principalNames| && '@' in login.principalNames[k]) ==> name.Some?
  {
    match login
    case LoginFailed(_) => None
    case LoggedIn(names) => FirstNameWithAtSign(names)
  }

  /** `ModelUtil.hasLength`: the reference is non-null and the string is non-empty. */
  predicate HasLength(s: Option<string>)
  {
    s.Some? && |s.value| > 0
  }

  /** The SSO method read from the preferences, with null or empty replaced by "file". */
  function EffectiveSsoMethod(stored: Option<string>): (m: string)
    ensures |m| > 0
    ensures stored.Some? && stored.value != "" ==> m == stored.value
    ensures stored.None? || stored.value == "" ==> m == "file"
  {
    if HasLength(stored) then stored.value else "file"
  }

  /** The flag handed to the GSS-API configuration: file-based exactly when the effective
      method is "file". */
  function UsesFileConfiguration(stored: Option<string>): (b: bool)
    ensures b <==> (stored.None? || stored.value == "" || stored.value == "file")
  {
    EffectiveSsoMethod(stored) == "file"
  }

  /** `getKerberosPrimary` on the resolved name `name`. */
  function Primary(name: Option<string>, seps: Separators): (p: Option<string>)
    ensures name.None? ==> p.None?
    ensures p.Some? ==> name.Some? && p.value <= name.value && Contains(name.value, seps.realm)
  {
    match name
    case None => None
    case Some(n) =>
      var r := IndexOf(n, seps.realm);
      if r == -1 then None
      else
        var c := IndexOf(Substring(n, 0, r).value, seps.component);
        if c != -1 then Some(Substring(n, 0, c).value)
        else Some(Substring(n, 0, r).value)
  }

  /** `getKerberosInstance` on the resolved name `name`. */
  function Instance(name: Option<string>, seps: Separators): (i: Outcome<Option<string>>)
    ensures name.None? ==> i == Returns(None)
    ensures i.Returns? && i.value.Some? ==> Primary(name, seps).Some?
    ensures i.Returns? && i.value.Some? ==> |i.value.value| < |name.value|
  {
    match name
    case None => Returns(None)
    case Some(n) =>
      var r := IndexOf(n, seps.realm);
      if r == -1 then Returns(None)
      else
        var c := IndexOf(Substring(n, 0, r).value, seps.component);
        if c == -1 then Returns(None)
        else
          match Substring(n, c + 1, r)
          case Returns(s) => Returns(Some(s))
          case IndexOutOfBounds => IndexOutOfBounds
  }

  /** `getKerberosRealm` on the resolved name `name`. */
  function Realm(name: Option<string>, seps: Separators): (m: Outcome<Option<string>>)
    ensures name.None? <==> m == Returns(None)
    ensures m.Returns? && m.value.Some? ==>
              var n := name.value; var s := m.value.value;
              |s| <= |n| && s == n[|n| - |s|..]
  {
    match name
    case None => Returns(None)
    case Some(n) =>
      var r := IndexOf(n, seps.realm);
      if r == -1 then Returns(Some(n))
      else
        match SubstringFrom(n, r + 1)
        case Returns(s) => Returns(Some(s))
        case IndexOutOfBounds => IndexOutOfBounds
  }
}
