# Kerberos principal names in Spark's single sign-on helpers

A Dafny model of the Kerberos part of Spark's `SSOUtils`: how the client picks its
Kerberos principal name after a login, how the configured SSO method is defaulted, and how
`getKerberosPrimary`, `getKerberosInstance` and `getKerberosRealm` split a resolved name
`primary/instance@REALM` into its three parts.

The getters are pure functions of the resolved name (a nullable string, `Option<string>`)
and of the two separators (`Separators(realm, component)`, by default `@` and `/`).
Each mirrors the Java code step for step: the realm separator is found with `indexOf`,
the component separator is searched for only in the text before it, and every
`substring` call is modelled with its `StringIndexOutOfBoundsException`
(`Outcome.IndexOutOfBounds`). `getKerberosPrimary` can never throw, so `Primary` returns
a plain `Option<string>`. The other two can throw, but only with an empty separator.

Modules:

- `JavaString` (java_string.dfy): nullable references, the substring exception, Java's
  `indexOf(String)` (first index or -1; the empty pattern is found at 0) with the reference
  notion `FirstOccurrence`, and both `substring` overloads.
- `SSOUtils` (sso_utils.dfy): the principal selection after login, the SSO method
  defaulting, and the three getters.
- `Decomposition` (decomposition.dfy): the properties of the getters. These cover each
  case of the split, when the getters throw, reassembly, the round trip from composed
  parts, separator-free parts, and disjoint ordered slices.
- `Scenarios` (scenarios.dfy): worked examples, including the names from the class
  documentation.

The getters are pure functions, so asking twice for the same part of the same name gives
the same answer.

In three places the model follows the code where a reading of the name grammar alone would
differ. First, a name that starts with the realm separator has an empty primary
(`Some("")`), not a missing one (`Scenarios.EmptyPrimary`). Second, a separator longer than
one character is searched for in full, but the getters skip only one character after it.
The rest of the separator then stays at the start of the instance or realm
(`LongSeparatorsLeaveTheirTail`). Third, an empty separator makes `getKerberosInstance` or
`getKerberosRealm` throw, in the cases that `InstanceThrowsExactly` and
`RealmThrowsExactly` state.

## Model

| member | source | states |
|---|---|---|
| JavaString.IndexOf | core/src/main/java/org/jivesoftware/spark/util/SSOUtils.java:147 | `name.indexOf(sep)` is -1 exactly when `sep` does not occur; otherwise it is the leftmost occurrence, and the whole separator fits in the name from there |
| JavaString.IndexOfIsFirstOccurrence | core/src/main/java/org/jivesoftware/spark/util/SSOUtils.java:147 | `indexOf` returns `k` exactly when `k` is the leftmost occurrence, so the getters can be read in terms of the name alone |
| JavaString.Substring | core/src/main/java/org/jivesoftware/spark/util/SSOUtils.java:154-162 | `substring(begin, end)` returns exactly when `0 <= begin <= end <= length`, and then returns the characters from `begin` up to `end` |
| JavaString.SubstringFrom | core/src/main/java/org/jivesoftware/spark/util/SSOUtils.java:224 | `substring(begin)` returns exactly when `0 <= begin <= length`, and then returns the characters from `begin` on |
| JavaString.ContainsSingleChar | core/src/main/java/org/jivesoftware/spark/util/SSOUtils.java:121 | testing for the one-character string `"@"` is testing whether the character `@` is in the name |
| SSOUtils.FirstNameWithAtSign | core/src/main/java/org/jivesoftware/spark/util/SSOUtils.java:118-128 | the result is absent exactly when no principal name contains `@`; otherwise it is the first name, in iteration order, that contains `@` |
| SSOUtils.KerberosName | core/src/main/java/org/jivesoftware/spark/util/SSOUtils.java:104-128 | a failed login gives null; a present result contains `@` and is one of the subject's principal names; a subject with some name containing `@` always gives a result |
| SSOUtils.EffectiveSsoMethod | core/src/main/java/org/jivesoftware/spark/util/SSOUtils.java:95-99 | the effective SSO method is never empty: a non-empty stored method is used as it is, and a null or empty one becomes `"file"` |
| SSOUtils.UsesFileConfiguration | core/src/main/java/org/jivesoftware/spark/util/SSOUtils.java:95-101 | the file-based configuration flag is true exactly when the stored method is null, empty or `"file"` |
| SSOUtils.Primary | core/src/main/java/org/jivesoftware/spark/util/SSOUtils.java:139-163 | a null name gives no primary; a primary is a prefix of the name and exists only when the realm separator occurs |
| SSOUtils.Instance | core/src/main/java/org/jivesoftware/spark/util/SSOUtils.java:175-199 | a null name gives no instance; an instance only exists together with a primary and is shorter than the name |
| SSOUtils.Realm | core/src/main/java/org/jivesoftware/spark/util/SSOUtils.java:208-226 | the realm is null exactly when the name is null; a realm is a suffix of the name |
| Decomposition.NoRealmSeparator | core/src/main/java/org/jivesoftware/spark/util/SSOUtils.java:147-221 | without a realm separator there is no primary and no instance, and the realm is the whole name |
| Decomposition.PrimaryWithoutInstance | core/src/main/java/org/jivesoftware/spark/util/SSOUtils.java:154-195 | realm separator first at `r` and no component separator before it: the primary is `name[..r]` and there is no instance |
| Decomposition.PrimaryAndInstance | core/src/main/java/org/jivesoftware/spark/util/SSOUtils.java:154-198 | realm separator first at `r`, component separator first at `c` before it: the primary is `name[..c]` and the instance is `name[c+1..r]` |
| Decomposition.InstanceKeepsLaterComponents | core/src/main/java/org/jivesoftware/spark/util/SSOUtils.java:168-198 | a component separator after the first one, before the realm separator, is kept inside the instance |
| Decomposition.RealmAfterSeparator | core/src/main/java/org/jivesoftware/spark/util/SSOUtils.java:216-225 | realm separator first at `r`: the realm is `name[r+1..]` |
| Decomposition.InstanceThrowsExactly | core/src/main/java/org/jivesoftware/spark/util/SSOUtils.java:190-198 | `getKerberosInstance` throws exactly when the component separator is empty and the name starts with the realm separator |
| Decomposition.RealmThrowsExactly | core/src/main/java/org/jivesoftware/spark/util/SSOUtils.java:216-225 | `getKerberosRealm` throws exactly when the realm separator and the name are both empty |
| Decomposition.Reassembly | core/src/main/java/org/jivesoftware/spark/util/SSOUtils.java:147-224 | for one-character separators and a name holding the realm separator: primary + component separator + instance (when present) + realm separator + realm is the name again |
| Decomposition.DecomposeCompose | core/src/main/java/org/jivesoftware/spark/util/SSOUtils.java:147-224 | for distinct one-character separators, a name built from a primary free of both separators, an instance free of the realm separator and any realm splits back into exactly those parts |
| Decomposition.PrimaryHasNoSeparator | core/src/main/java/org/jivesoftware/spark/util/SSOUtils.java:147-162 | for non-empty separators the primary contains neither the realm separator nor the component separator |
| Decomposition.InstanceHasNoRealmSeparator | core/src/main/java/org/jivesoftware/spark/util/SSOUtils.java:183-198 | for a non-empty realm separator the instance never contains it |
| Decomposition.Spans | core/src/main/java/org/jivesoftware/spark/util/SSOUtils.java:147-224 | for non-empty separators, primary, instance and realm are disjoint slices of the name, in that order, with at least one character between neighbours |
| Decomposition.LongSeparatorsLeaveTheirTail | core/src/main/java/org/jivesoftware/spark/util/SSOUtils.java:198-224 | because the getters skip one character, the realm starts with the realm separator minus its first character, and likewise the instance with the component separator |
| Scenarios.UserPrincipal | core/src/main/java/org/jivesoftware/spark/util/SSOUtils.java:51-60 | `jennifer@ATHENA.MIT.EDU` splits into primary `jennifer`, no instance, realm `ATHENA.MIT.EDU` |
| Scenarios.AdminPrincipal | core/src/main/java/org/jivesoftware/spark/util/SSOUtils.java:57-60 | `jennifer/admin@ATHENA.MIT.EDU` has the instance `admin` |
| Scenarios.HostPrincipalWithTwoInstanceComponents | core/src/main/java/org/jivesoftware/spark/util/SSOUtils.java:165-170 | `host/daffodil/mit@EXAMPLE.COM` has the instance `daffodil/mit` |
| Scenarios.RealmOnly | core/src/main/java/org/jivesoftware/spark/util/SSOUtils.java:216-221 | `justarealm` is all realm |
| Scenarios.CustomSeparators | core/src/main/java/org/jivesoftware/spark/util/SSOUtils.java:147-154 | with separators `#` and `:`, `p:i#r` splits into `p`, `i`, `r` |
| Scenarios.EmptyPrimary | core/src/main/java/org/jivesoftware/spark/util/SSOUtils.java:154-162 | `@EXAMPLE.COM` has an empty primary, no instance and realm `EXAMPLE.COM` |
| Scenarios.FailedLogin | core/src/main/java/org/jivesoftware/spark/util/SSOUtils.java:104-114 | after a failed login all three getters return null |
| Scenarios.SelectionSkipsNamesWithoutAtSign | core/src/main/java/org/jivesoftware/spark/util/SSOUtils.java:118-128 | a principal name without `@` is skipped and the first one with `@` is chosen |

## Left out

- The Windows branch of `getKerberosName` (lines 72-85): it asks the native Windows security API, through the Waffle library, for the principal name. That API is not part of this model. Its failures propagate as exceptions, unlike the null of the other branch.
- The JAAS login itself (`LoginContext`, `Subject`, `Configuration.setConfiguration`, `GSSAPIConfiguration`; lines 101-116) is an external library. The model takes its result as an input, `LoginOutcome`: a failure with its message, or the subject's principal names. The link between the SSO method flag and what that login returns is therefore not modelled.
- The subject's principals form a Java `Set`. Its iteration order is whatever that set gives; the model takes it as the order of a sequence. A principal whose `getName()` is null would throw in the source; the model has no null names.
- `System.setProperty` for `java.security.krb5.debug` and `javax.security.auth.useSubjectCredsOnly` (lines 89-93) are process-wide side effects, and the debug preference only feeds them, so they are not modelled.
- The separator lookups `System.getProperty("kerberos.realm-separator", "@")` and `System.getProperty("kerberos.component-separator", "/")` read process-wide state. The separators are a parameter instead (`Separators`, with `DefaultSeparators` for the defaults).
- `Spark.isWindows()`, `SettingsManager`/`LocalPreferences` and `Log.debug` are platform detection, the preference store and logging. The stored SSO method is an input.
- `ModelUtil` is not part of this model. `ModelUtil.hasLength` is taken to mean "non-null and of length greater than zero" (`HasLength`).
- Each Java getter calls `getKerberosName()` again, with no caching, and so may see a different name each time. The model gives all three getters the same resolved name.
- Java strings are sequences of UTF-16 code units; the model's strings are sequences of Dafny characters. Names with characters outside the Basic Multilingual Plane are therefore not modelled index for index.
- Decomposition.Reassembly: stated for one-character separators only. With longer separators the getters skip only the first character, so the parts do not reassemble with the full separators (see LongSeparatorsLeaveTheirTail).
