# SPDX helper extensions, modelled in Dafny

This project models the SPDX helper layer of ORT (`com.here.ort.spdx`,
`spdx-utils/src/main/kotlin/Extensions.kt`) and proves what it promises:

- `EnumSet.plus`: the union of two enum sets. It copies the receiver and then extends the copy in place, so neither operand changes.
- The infix combinators `and`, `or` and `with`. Each builds a compound SPDX expression from a catalog license and a second license, an expression or a license exception.
- `SpdxLicense.toExpression()`: turns a catalog license into a license-id leaf. It derives the "or later" flag by the two conventions of SPDX License Expressions (SPDX Specification 2.x, Annex D). A deprecated id carries a trailing `+` operator, which is stripped once and recorded. A current id spells `-or-later` in the id itself, which is kept.
- `SpdxLicenseException.toExpression()`: the exception id as an exception leaf.
- `String.isLicenseRefTo`: whether a string is `LicenseRef-<name>` or `LicenseRef-<namespace>-<name>` for one of a list of scanner namespaces. Case is ignored by default, except in the prefix.

Files:

- `kotlin_text.dfy` (module `KotlinText`): the Kotlin/JVM string operations the core calls (`startsWith`, `endsWith` with and without `ignoreCase`, `removePrefix`, `removeSuffix`, `dropLast`, `isBlank`, `equals(…, ignoreCase)`).
- `spdx_model.dfy` (module `SpdxModel`): the expression tree (`SpdxLicenseIdExpression`, `SpdxLicenseExceptionExpression`, `SpdxCompoundExpression`), the operators, and the catalog records.
  - Only the fields the helpers read are kept.
  - `WellFormed` states the SPDX shape rule: `WITH` joins a single license id to a single exception; `AND`/`OR` join well-formed expressions.
- `enum_set.dfy` (module `EnumSets`): `java.util.EnumSet` as a class whose one field is the set of constants. It offers `copyOf` (a constructor) and `addAll` (a method that updates the set in place).
- `extensions.dfy` (module `Extensions`): the core.
  - `toExpression` is an imperative method (local variable reassigned in the deprecated branch). It is proved equal to the specification function `LicenseLeaf`, which the pure combinators call.
  - `isLicenseRefTo` is a function that follows the source's early returns. It is proved equivalent, in both directions, to an independent declarative definition, `DenotesLicenseRef`.

Kotlin overloads become separately named functions. `license and other` is `LicenseAndLicense` when `other` is a license and `LicenseAnd` when it is an expression; `or` works the same way.

The SPDX types `SpdxLicense`, `SpdxLicenseException`, `SpdxCompoundExpression` and the other node classes live in other files of the repository, which are not part of this model. They are declared here with the minimal fields the helpers use.

Facts about the code that shape the model:

- `with` has no failure path: its receiver is always an `SpdxLicense` (Extensions.kt:54-55), so the left operand is always a single license-id leaf.
- The namespace comparison honours `ignoreCase` (Extensions.kt:104), like the name comparison (Extensions.kt:96).
- `namespaces` is a `List` (Extensions.kt:87), modelled as a `seq`, and is scanned from its head.
- No code in this file builds a `LicenseRef` leaf, so the tree has none.

## Model

| member | source | states |
|---|---|---|
| `Extensions.Plus` | spdx-utils/src/main/kotlin/Extensions.kt:24-27 | The result is a fresh set whose members are exactly those of either operand; both operands keep their contents. |
| `EnumSets.EnumSet.CopyOf` | spdx-utils/src/main/kotlin/Extensions.kt:27 | `EnumSet.copyOf`: a new set with the same members as its argument. |
| `EnumSets.EnumSet.AddAll` | spdx-utils/src/main/kotlin/Extensions.kt:27 | `addAll`: the set becomes its old contents united with the argument's, and it reports a change exactly when the argument held something new. |
| `Extensions.LicenseLeaf` | spdx-utils/src/main/kotlin/Extensions.kt:60-73 | Always a license-id leaf. Deprecated id: leaf id plus `+` when or-later gives back the catalog id, and or-later holds iff the id ended in `+`. Current id: kept unchanged, and or-later holds iff it ends in `-or-later`. |
| `Extensions.ToExpression` | spdx-utils/src/main/kotlin/Extensions.kt:60-73 | The imperative conversion (strip the suffix from a local copy, compare with the original) yields exactly `LicenseLeaf`. |
| `Extensions.DeprecatedStripsOnePlus` | spdx-utils/src/main/kotlin/Extensions.kt:65-67 | A deprecated id loses at most one character, the leaf id is a prefix of the id, and an id ending in `++` keeps one `+`. |
| `Extensions.LicenseLeafExamples` | spdx-utils/src/main/kotlin/Extensions.kt:60-73 | `GPL-2.0+` (deprecated) gives `GPL-2.0` or-later; `GPL-2.0` (deprecated) is not or-later; `GPL-3.0-or-later` is or-later and kept verbatim; `MIT` is not or-later. |
| `Extensions.ExceptionToExpression` | spdx-utils/src/main/kotlin/Extensions.kt:78 | An exception leaf carrying the exception's id verbatim. |
| `Extensions.LicenseAnd` | spdx-utils/src/main/kotlin/Extensions.kt:37-38 | An `AND` node with the license's leaf on the left and the given expression, untouched, on the right. It is well formed exactly when that expression is. |
| `Extensions.LicenseAndLicense` | spdx-utils/src/main/kotlin/Extensions.kt:32 | The license/license overload agrees with the license/expression overload applied to the second license's leaf, and is always well formed. |
| `Extensions.LicenseOr` | spdx-utils/src/main/kotlin/Extensions.kt:48-49 | An `OR` node with the license's leaf on the left and the given expression, untouched, on the right. It is well formed exactly when that expression is. |
| `Extensions.LicenseOrLicense` | spdx-utils/src/main/kotlin/Extensions.kt:43 | The license/license overload agrees with the license/expression overload applied to the second license's leaf, and is always well formed. |
| `Extensions.LicenseWith` | spdx-utils/src/main/kotlin/Extensions.kt:54-55 | A `WITH` node with the license's leaf on the left and always a single exception leaf with the exception's id on the right; always well formed. |
| `Extensions.CombinatorChainWellFormed` | spdx-utils/src/main/kotlin/Extensions.kt:32-55 | For arbitrary catalog entries the one shape `a and (b or (c with x))` is well formed, and `and` applied to a bare exception leaf is not. Deeper nesting follows from the well-formedness clauses of `LicenseAnd` and `LicenseOr`. |
| `Extensions.AnyEquals` | spdx-utils/src/main/kotlin/Extensions.kt:104 | `namespaces.any { it.equals(namespace, ignoreCase) }` is true iff some list element equals the namespace under `ignoreCase`. |
| `Extensions.DefaultNamespacesNamed` | spdx-utils/src/main/kotlin/Extensions.kt:87 | With case respected, the default list `DefaultNamespaces` matches exactly `ORT`, `Askalono`, `BoyterLc`, `Licensee` and `scancode`. |
| `Extensions.IsLicenseRefTo` | spdx-utils/src/main/kotlin/Extensions.kt:84-105 | A true answer implies a valid name (not blank, no leading or trailing `-`) and the exact `LicenseRef-` prefix. With case respected, it also implies the string ends with the name. |
| `Extensions.IsLicenseRefToCorrect` | spdx-utils/src/main/kotlin/Extensions.kt:89-104 | True iff the name is valid, the prefix is present, and the remainder is either the name under `ignoreCase` or `<ns>-<n>` with `n` the name and `ns` a listed namespace under `ignoreCase`. |
| `Extensions.AcceptedDenotes` | spdx-utils/src/main/kotlin/Extensions.kt:89-104 | Direction one of the equivalence: every string the matcher accepts is a license reference to the name. |
| `Extensions.DenotedAccepted` | spdx-utils/src/main/kotlin/Extensions.kt:89-104 | Direction two: every license reference to the name passes every check of the matcher. |
| `Extensions.IsLicenseRefToSound` | spdx-utils/src/main/kotlin/Extensions.kt:96-104 | A remainder that passes the suffix, infix and namespace checks is the name itself or a listed namespace, a `-` and the name. |
| `Extensions.IsLicenseRefToComplete` | spdx-utils/src/main/kotlin/Extensions.kt:96-104 | For `<ns>-<n>` with `n` matching the name, the suffix check passes, the infix is `<ns>-`, and stripping `-` leaves `ns`. |
| `Extensions.NamespacedRefAccepted` | spdx-utils/src/main/kotlin/Extensions.kt:96-104 | For every valid name, every `n` matching it under `ignoreCase` and every listed namespace `ns`, `LicenseRef-<ns>-<n>` is accepted. |
| `Extensions.PlainRefAccepted` | spdx-utils/src/main/kotlin/Extensions.kt:96-98 | For every valid name and every `n` matching it under `ignoreCase`, `LicenseRef-<n>` is accepted, whatever the namespace list. |
| `Extensions.NamespacedRefRefused` | spdx-utils/src/main/kotlin/Extensions.kt:100-104 | For every `n` matching the name and every namespace `ns` that is not listed under `ignoreCase`, `LicenseRef-<ns>-<n>` is refused. |
| `Extensions.PublicDomainIsValidName` | spdx-utils/src/main/kotlin/Extensions.kt:89 | `public-domain` passes the name check. |
| `Extensions.NamespacedExample` | spdx-utils/src/main/kotlin/Extensions.kt:87-104 | `LicenseRef-scancode-public-domain` refers to `public-domain` with the default namespaces. |
| `Extensions.PlainExample` | spdx-utils/src/main/kotlin/Extensions.kt:92-98 | `LicenseRef-public-domain` refers to `public-domain`. |
| `Extensions.UnknownNamespaceExample` | spdx-utils/src/main/kotlin/Extensions.kt:100-104 | `LicenseRef-unknown-tool-public-domain` does not, because `unknown-tool` is not a default namespace. |
| `Extensions.MissingPrefixOrBlankNameExample` | spdx-utils/src/main/kotlin/Extensions.kt:89-93 | `Public-domain` (no prefix) and the blank name `""` are refused. |
| `Extensions.IgnoreCaseExample` | spdx-utils/src/main/kotlin/Extensions.kt:86-104 | By default `LicenseRef-ScanCode-Public-Domain` refers to `public-domain`. |
| `Extensions.PublicDomainIgnoringCase` | spdx-utils/src/main/kotlin/Extensions.kt:96 | Ignoring case, `Public-Domain` equals `public-domain`. |
| `Extensions.ScanCodeIgnoringCase` | spdx-utils/src/main/kotlin/Extensions.kt:87 | Ignoring case, the default namespace `scancode` equals `ScanCode`. |
| `Extensions.RespectCaseExample` | spdx-utils/src/main/kotlin/Extensions.kt:96 | With `ignoreCase = false`, `LicenseRef-ScanCode-Public-Domain` does not refer to `public-domain`. |
| `Extensions.PrefixCaseExample` | spdx-utils/src/main/kotlin/Extensions.kt:92-93 | `licenseref-public-domain` is refused even when case is ignored: the prefix is case-sensitive. |
| `KotlinText.RemovePrefix` | spdx-utils/src/main/kotlin/Extensions.kt:92 | `removePrefix`: with the prefix present, prefix plus result is the string; otherwise the string is returned unchanged. |
| `KotlinText.RemoveSuffix` | spdx-utils/src/main/kotlin/Extensions.kt:66 | `removeSuffix`: with the suffix present, result plus suffix is the string; otherwise the string is returned unchanged. |
| `KotlinText.DropLast` | spdx-utils/src/main/kotlin/Extensions.kt:97 | `dropLast(n)`: a prefix of the string, `n` shorter, or empty when `n` exceeds the length. |
| `KotlinText.AsciiUpper` | spdx-utils/src/main/kotlin/Extensions.kt:96 | The case folding under `ignoreCase`: lower-case ASCII letters map to their upper-case forms; every other character maps to itself. |
| `KotlinText.StringEqualsCaseSensitive` | spdx-utils/src/main/kotlin/Extensions.kt:104 | `equals(other, ignoreCase = false)` is plain string equality. |
| `KotlinText.StringEqualsSymmetric` | spdx-utils/src/main/kotlin/Extensions.kt:104 | `equals(other, ignoreCase)` does not depend on argument order. |
| `KotlinText.EndsWithCaseSensitive` | spdx-utils/src/main/kotlin/Extensions.kt:96 | `endsWith(suffix, ignoreCase = false)` is the case-sensitive suffix test. |
| `KotlinText.StartsWith` | spdx-utils/src/main/kotlin/Extensions.kt:89 | `startsWith(prefix)` holds iff the prefix is no longer than the string and equals the string's first characters of the same length. |
| `KotlinText.EndsWith` | spdx-utils/src/main/kotlin/Extensions.kt:89 | `endsWith(suffix)` implies the suffix is no longer than the string and, when non-empty, both end in the same character. |
| `KotlinText.EndsWithSplit` | spdx-utils/src/main/kotlin/Extensions.kt:89 | `endsWith(suffix)` holds iff the string is its first part followed by `suffix`. |
| `KotlinText.EndsWithCase` | spdx-utils/src/main/kotlin/Extensions.kt:96 | `endsWith(suffix, ignoreCase)` implies the suffix fits in the string, and a case-sensitive suffix match always satisfies it. |
| `KotlinText.EndsWithCaseAt` | spdx-utils/src/main/kotlin/Extensions.kt:96 | `endsWith(suffix, ignoreCase)` holds iff the suffix fits and each of its characters matches the aligned character of the string's tail. |
| `KotlinText.CharEquals` | spdx-utils/src/main/kotlin/Extensions.kt:96 | `Char.equals(other, ignoreCase = false)` is plain character equality. |
| `KotlinText.CharEqualsIgnoringCase` | spdx-utils/src/main/kotlin/Extensions.kt:96 | Ignoring case, two characters match iff they are equal or are the lower- and upper-case forms of one ASCII letter. |
| `KotlinText.StringEquals` | spdx-utils/src/main/kotlin/Extensions.kt:104 | `equals(other, ignoreCase)` implies equal lengths, and equal strings are always equal under either setting. |
| `KotlinText.IsWhitespace` | spdx-utils/src/main/kotlin/Extensions.kt:89 | Space, TAB, LF and CR are whitespace; no printable ASCII character (`!` to `~`) is. |
| `KotlinText.IsBlank` | spdx-utils/src/main/kotlin/Extensions.kt:89 | The empty string is blank. |
| `KotlinText.PrintableIsNotBlank` | spdx-utils/src/main/kotlin/Extensions.kt:89 | A string with any printable ASCII character is not blank, so it passes the blank-name check. |

## Left out

- Unicode case folding: `ignoreCase` comparisons in the JVM use `Character.toUpperCase`/`toLowerCase` over all of Unicode. The model folds ASCII letters only. Two non-ASCII letters that differ only in case are treated as different. So are non-ASCII characters that the JVM folds onto an ASCII letter. Examples: the dotless `ı` (U+0131) and the long `ſ` (U+017F) upper-case to `I` and `S`, and the Kelvin sign (U+212A) lower-cases to `k`. So `"LicenseRef-publıc-domain".isLicenseRefTo("public-domain")` is true on the JVM and false in the model.
- `isBlank` uses Kotlin's `Char.isWhitespace`. On the JVM that is the union of `Character.isWhitespace` and `Character.isSpaceChar`, written out in `KotlinText.IsWhitespace` as a fixed list of code points. That list follows a current Unicode version, while the JDK's list depends on the Unicode version it ships. A JDK on Unicode 6.2 (JDK 8) classes U+180E (Mongolian vowel separator) as a space separator, so there `isBlank("\u180E")` is true and in the model it is false. A later Unicode revision could likewise add a space separator the list lacks.
- `java.util.EnumSet` is modelled as a mathematical set. Its bit-vector layout, its iteration order by enum ordinal, and the empty-collection rule of `EnumSet.copyOf(Collection)` are not modelled. `plus` always copies another `EnumSet`, so that rule never applies here.
- The catalog records keep only `id` and `deprecated`. Other fields of the SPDX license and exception enums (full names, license texts) are not read by these helpers.
- Only `spdx-utils/src/main/kotlin/Extensions.kt` is modelled. Parsing expression strings, rendering expressions back to text and looking up catalog entries are not modelled.
