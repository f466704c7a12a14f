/**
 Worked examples: the principal names of the Kerberos V5 user's guide and a few edge
 cases, each split by the getters.
 */
module Scenarios {
  import opened JavaString
  import opened SSOUtils
  import opened Decomposition

  /** Each example name, written out, is the name composed from its parts. */
  lemma UserNameComposed()
    ensures Compose("jennifer", None, "ATHENA.MIT.EDU", DefaultSeparators) == "jennifer@ATHENA.MIT.EDU"
  {
  }

  lemma AdminNameComposed()
    ensures Compose("jennifer", Some("admin"), "ATHENA.MIT.EDU", DefaultSeparators)
            == "jennifer/admin@ATHENA.MIT.EDU"
  {
  }

  lemma HostNameComposed()
    ensures Compose("host", Some("daffodil/mit"), "EXAMPLE.COM", DefaultSeparators)
            == "host/daffodil/mit@EXAMPLE.COM"
  {
  }

  lemma CustomNameComposed()
    ensures Compose("p", Some("i"), "r", Separators("#", ":")) == "p:i#r"
  {
  }

  lemma EmptyPrimaryNameComposed()
    ensures Compose("", None, "EXAMPLE.COM", DefaultSeparators) == "@EXAMPLE.COM"
  {
  }

  /** A user principal without instance. */
  lemma UserPrincipal(n: string)
    requires n == "jennifer@ATHENA.MIT.EDU"
    ensures Primary(Some(n), DefaultSeparators) == Some("jennifer")
    ensures Instance(Some(n), DefaultSeparators) == Returns(None)
    ensures Realm(Some(n), DefaultSeparators) == Returns(Some("ATHENA.MIT.EDU"))
  {
    UserNameComposed();
    SplitComposedWithoutInstance("jennifer", "ATHENA.MIT.EDU", DefaultSeparators);
  }

  /** An administrative principal: the instance is "admin". */
  lemma AdminPrincipal(n: string)
    requires n == "jennifer/admin@ATHENA.MIT.EDU"
    ensures Primary(Some(n), DefaultSeparators) == Some("jennifer")
    ensures Instance(Some(n), DefaultSeparators) == Returns(Some("admin"))
    ensures Realm(Some(n), DefaultSeparators) == Returns(Some("ATHENA.MIT.EDU"))
  {
    AdminNameComposed();
    SplitComposedWithInstance("jennifer", "admin", "ATHENA.MIT.EDU", DefaultSeparators);
  }

  /** A host principal whose instance holds a further component separator. */
  lemma HostPrincipalWithTwoInstanceComponents(n: string)
    requires n == "host/daffodil/mit@EXAMPLE.COM"
    ensures Primary(Some(n), DefaultSeparators) == Some("host")
    ensures Instance(Some(n), DefaultSeparators) == Returns(Some("daffodil/mit"))
    ensures Realm(Some(n), DefaultSeparators) == Returns(Some("EXAMPLE.COM"))
  {
    HostNameComposed();
    SplitComposedWithInstance("host", "daffodil/mit", "EXAMPLE.COM", DefaultSeparators);
  }

  /** A name without realm separator is all realm. */
  lemma RealmOnly(n: string)
    requires n == "justarealm"
    ensures Primary(Some(n), DefaultSeparators) == None
    ensures Instance(Some(n), DefaultSeparators) == Returns(None)
    ensures Realm(Some(n), DefaultSeparators) == Returns(Some(n))
  {
    ContainsSingleChar(n, '@');
    NoRealmSeparator(n, DefaultSeparators);
  }

  /** Separators configured as `#` (realm) and `:` (component). */
  lemma CustomSeparators(n: string)
    requires n == "p:i#r"
    ensures Primary(Some(n), Separators("#", ":")) == Some("p")
    ensures Instance(Some(n), Separators("#", ":")) == Returns(Some("i"))
    ensures Realm(Some(n), Separators("#", ":")) == Returns(Some("r"))
  {
    CustomNameComposed();
    SplitComposedWithInstance("p", "i", "r", Separators("#", ":"));
  }

  /** Nothing before the realm separator: the primary is present but empty. */
  lemma EmptyPrimary(n: string)
    requires n == "@EXAMPLE.COM"
    ensures Primary(Some(n), DefaultSeparators) == Some("")
    ensures Instance(Some(n), DefaultSeparators) == Returns(None)
    ensures Realm(Some(n), DefaultSeparators) == Returns(Some("EXAMPLE.COM"))
  {
    EmptyPrimaryNameComposed();
    SplitComposedWithoutInstance("", "EXAMPLE.COM", DefaultSeparators);
  }

  /** A failed login leaves every part absent. */
  lemma FailedLogin(message: string, seps: Separators)
    ensures Primary(KerberosName(LoginFailed(message)), seps) == None
    ensures Instance(KerberosName(LoginFailed(message)), seps) == Returns(None)
    ensures Realm(KerberosName(LoginFailed(message)), seps) == Returns(None)
  {
  }

  /** The selection skips a principal name without `@` and keeps the first one that has it. */
  lemma SelectionSkipsNamesWithoutAtSign()
    ensures KerberosName(LoggedIn(["HTTP", "jennifer@ATHENA.MIT.EDU", "x@Y"])) == Some("jennifer@ATHENA.MIT.EDU")
  {
    ContainsSingleChar("HTTP", '@');
    ContainsSingleChar("jennifer@ATHENA.MIT.EDU", '@');
    assert "jennifer@ATHENA.MIT.EDU"[8] == '@';
  }
}
