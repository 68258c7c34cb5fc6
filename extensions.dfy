/**
 * The SPDX helper extensions of `com.here.ort.spdx`: the `EnumSet` union,
 * the `and` / `or` / `with` expression combinators, the conversion of catalog
 * licenses and exceptions into expression leaves, and the `LicenseRef-`
 * matcher.
 *
 * Kotlin overloads become separately named functions: `license and other`
 * is `LicenseAndLicense` when `other` is a license and `LicenseAnd` when it
 * is an expression (likewise for `or`). Kotlin's default arguments of
 * `isLicenseRefTo` are `DefaultNamespaces` and `ignoreCase = true`.
 */
module Extensions {
  import opened KotlinText
  import opened SpdxModel
  import opened EnumSets

  // ---------------------------------------------------------------------------
  // EnumSet.plus
  // ---------------------------------------------------------------------------

  /**
   * `s + other`: a new set holding the constants of both operands. The
   * result is a fresh copy of `s` extended in place, so neither operand
   * changes.
   */
  method Plus<E(==)>(s: EnumSet<E>, other: EnumSet<E>) returns (r: EnumSet<E>)
    ensures fresh(r)
    ensures forall x :: x in r.elements <==> x in s.elements || x in other.elements
    ensures s.elements == old(s.elements) && other.elements == old(other.elements)
  {
    r := new EnumSet.CopyOf(s);
    var _ := r.AddAll(other);
  }

  // ---------------------------------------------------------------------------
  // Leaves
  // ---------------------------------------------------------------------------

  /** The suffix by which a current SPDX license id says "this version or any later one". */
  const OrLaterSuffix: string := "-or-later"

  /**
   * The license-id leaf of a catalog license. A deprecated id carries the
   * legacy `+` operator: one trailing `+` is taken off and recorded as the
   * or-later flag. A current id is kept as it is and is or-later exactly
   * when it ends in `-or-later`.
   */
  function LicenseLeaf(license: SpdxLicense): (e: SpdxExpression)
    ensures e.SpdxLicenseIdExpression?
    ensures license.deprecated ==> e.id + (if e.orLaterVersion then "+" else "") == license.id
    ensures license.deprecated ==> (e.orLaterVersion <==> EndsWith(license.id, "+"))
    ensures !license.deprecated ==> e.id == license.id
    ensures !license.deprecated ==> (e.orLaterVersion <==> EndsWith(license.id, OrLaterSuffix))
  {
    if license.deprecated then
      SpdxLicenseIdExpression(RemoveSuffix(license.id, "+"), EndsWith(license.id, "+"))
    else
      SpdxLicenseIdExpression(license.id, EndsWith(license.id, OrLaterSuffix))
  }

  /**
   * `SpdxLicense.toExpression()`: starts from the id, replaces it by the id
   * without a trailing `+` for a deprecated license, and calls the license
   * or-later when that changed the id.
   */
  method ToExpression(license: SpdxLicense) returns (e: SpdxExpression)
    ensures e == LicenseLeaf(license)
  {
    var expressionId := license.id;
    var orLaterVersion: bool;
    if license.deprecated {
      expressionId := RemoveSuffix(license.id, "+");
      orLaterVersion := license.id != expressionId;
    } else {
      orLaterVersion := EndsWith(license.id, OrLaterSuffix);
    }
    e := SpdxLicenseIdExpression(expressionId, orLaterVersion);
  }

  /** A deprecated id loses at most one `+`: of `GPL-2.0++` the leaf keeps `GPL-2.0+`. */
  lemma DeprecatedStripsOnePlus(license: SpdxLicense)
    requires license.deprecated
    ensures LicenseLeaf(license).id <= license.id
    ensures |license.id| - 1 <= |LicenseLeaf(license).id|
    ensures EndsWith(license.id, "++") ==> EndsWith(LicenseLeaf(license).id, "+")
  {
  }

  /** The or-later examples of the SPDX license list, under both conventions. */
  lemma LicenseLeafExamples()
    ensures LicenseLeaf(SpdxLicense("GPL-2.0+", true)) == SpdxLicenseIdExpression("GPL-2.0", true)
    ensures LicenseLeaf(SpdxLicense("GPL-2.0", true)) == SpdxLicenseIdExpression("GPL-2.0", false)
    ensures LicenseLeaf(SpdxLicense("GPL-3.0-or-later", false)) == SpdxLicenseIdExpression("GPL-3.0-or-later", true)
    ensures LicenseLeaf(SpdxLicense("MIT", false)) == SpdxLicenseIdExpression("MIT", false)
  {
    assert EndsWith("GPL-2.0+", "+");
    assert !EndsWith("GPL-2.0", "+");
    assert EndsWith("GPL-3.0-or-later", OrLaterSuffix);
    assert !EndsWith("MIT", OrLaterSuffix);
  }

  /** `SpdxLicenseException.toExpression()`: the exception's id as an exception leaf, verbatim. */
  function ExceptionToExpression(exception: SpdxLicenseException): (e: SpdxExpression)
    ensures e.SpdxLicenseExceptionExpression? && e.id == exception.id
  {
    SpdxLicenseExceptionExpression(exception.id)
  }

  // ---------------------------------------------------------------------------
  // Combinators
  // ---------------------------------------------------------------------------

  /** `license and other` for an expression `other`. */
  function LicenseAnd(license: SpdxLicense, other: SpdxExpression): (r: SpdxExpression)
    ensures r.SpdxCompoundExpression? && r.operator == AND
    ensures r.left == LicenseLeaf(license) && r.right == other
    ensures WellFormed(r) <==> WellFormed(other)
  {
    SpdxCompoundExpression(LicenseLeaf(license), AND, other)
  }

  /** `license and other` for a license `other`: the expression overload applied to `other`'s leaf. */
  function LicenseAndLicense(license: SpdxLicense, other: SpdxLicense): (r: SpdxExpression)
    ensures r == LicenseAnd(license, LicenseLeaf(other))
    ensures WellFormed(r)
  {
    LicenseAnd(license, LicenseLeaf(other))
  }

  /** `license or other` for an expression `other`. */
  function LicenseOr(license: SpdxLicense, other: SpdxExpression): (r: SpdxExpression)
    ensures r.SpdxCompoundExpression? && r.operator == OR
    ensures r.left == LicenseLeaf(license) && r.right == other
    ensures WellFormed(r) <==> WellFormed(other)
  {
    SpdxCompoundExpression(LicenseLeaf(license), OR, other)
  }

  /** `license or other` for a license `other`: the expression overload applied to `other`'s leaf. */
  function LicenseOrLicense(license: SpdxLicense, other: SpdxLicense): (r: SpdxExpression)
    ensures r == LicenseOr(license, LicenseLeaf(other))
    ensures WellFormed(r)
  {
    LicenseOr(license, LicenseLeaf(other))
  }

  /** `license with exception`: the right operand is always the single exception leaf. */
  function LicenseWith(license: SpdxLicense, exception: SpdxLicenseException): (r: SpdxExpression)
    ensures r.SpdxCompoundExpression? && r.operator == WITH
    ensures r.left == LicenseLeaf(license)
    ensures r.right == SpdxLicenseExceptionExpression(exception.id)
    ensures WellFormed(r)
  {
    SpdxCompoundExpression(LicenseLeaf(license), WITH, ExceptionToExpression(exception))
  }

  /**
   * The shape `a and (b or (c with x))` is a valid expression, while `and`
   * applied to a bare exception leaf is not.
   */
  lemma CombinatorChainWellFormed(a: SpdxLicense, b: SpdxLicense, c: SpdxLicense, x: SpdxLicenseException)
    ensures WellFormed(LicenseAnd(a, LicenseOr(b, LicenseWith(c, x))))
    ensures !WellFormed(LicenseAnd(a, ExceptionToExpression(x)))
  {
  }

  // ---------------------------------------------------------------------------
  // isLicenseRefTo
  // ---------------------------------------------------------------------------

  /** The literal, case-sensitive prefix of every SPDX license reference. */
  const LicenseRefPrefix: string := "LicenseRef-"

  /** The scanner namespaces accepted by default. */
  const DefaultNamespaces: seq<string> := ["ORT", "Askalono", "BoyterLc", "Licensee", "scancode"]

  /** A name usable after `LicenseRef-`: not blank, and neither starting nor ending with `-`. */
  predicate ValidName(name: string) {
    !IsBlank(name) && !StartsWith(name, "-") && !EndsWith(name, "-")
  }

  /** Some element of `namespaces` equals `namespace`, honouring `ignoreCase`. */
  ghost predicate InNamespaces(namespaces: seq<string>, namespace: string, ignoreCase: bool) {
    exists k :: 0 <= k < |namespaces| && StringEquals(namespaces[k], namespace, ignoreCase)
  }

  /** `namespaces.any { it.equals(namespace, ignoreCase) }`, scanning the list from its head. */
  function AnyEquals(namespaces: seq<string>, namespace: string, ignoreCase: bool): (r: bool)
    ensures r <==> InNamespaces(namespaces, namespace, ignoreCase)
  {
    if namespaces == [] then false
    else if StringEquals(namespaces[0], namespace, ignoreCase) then true
    else
      var found := AnyEquals(namespaces[1..], namespace, ignoreCase);
      assert InNamespaces(namespaces[1..], namespace, ignoreCase) ==> InNamespaces(namespaces, namespace, ignoreCase) by {
        if InNamespaces(namespaces[1..], namespace, ignoreCase) {
          var k :| 0 <= k < |namespaces[1..]| && StringEquals(namespaces[1..][k], namespace, ignoreCase);
          assert namespaces[k + 1] == namespaces[1..][k];
        }
      }
      assert InNamespaces(namespaces, namespace, ignoreCase) ==> InNamespaces(namespaces[1..], namespace, ignoreCase) by {
        if InNamespaces(namespaces, namespace, ignoreCase) {
          var k :| 0 <= k < |namespaces| && StringEquals(namespaces[k], namespace, ignoreCase);
          assert k != 0;
          assert namespaces[1..][k - 1] == namespaces[k];
        }
      }
      found
  }

  /** Case-sensitively, the default list holds exactly the five scanner namespaces. */
  lemma DefaultNamespacesNamed(namespace: string)
    ensures AnyEquals(DefaultNamespaces, namespace, false) <==>
      namespace == "ORT" || namespace == "Askalono" || namespace == "BoyterLc" ||
      namespace == "Licensee" || namespace == "scancode"
  {
    forall k | 0 <= k < |DefaultNamespaces| {
      StringEqualsCaseSensitive(DefaultNamespaces[k], namespace);
    }
  }

  /**
   * `s.isLicenseRefTo(name, ignoreCase, namespaces)`: whether `s` is
   * `LicenseRef-<name>` or `LicenseRef-<namespace>-<name>` for one of the
   * given scanner namespaces. The checks run in the order of the source and
   * the first failing one answers false.
   */
  function IsLicenseRefTo(s: string, name: string, ignoreCase: bool, namespaces: seq<string>): (r: bool)
    ensures r ==> ValidName(name)
    ensures r ==> StartsWith(s, LicenseRefPrefix)
    ensures !ignoreCase && r ==> EndsWith(s, name)
  {
    if IsBlank(name) || StartsWith(name, "-") || EndsWith(name, "-") then false
    else
      var withoutPrefix := RemovePrefix(s, LicenseRefPrefix);
      if withoutPrefix == s then false
      else if !EndsWithCase(withoutPrefix, name, ignoreCase) then false
      else
        EndsWithCaseSensitive(withoutPrefix, name);
        var infix := DropLast(withoutPrefix, |name|);
        if |infix| == 0 then true
        else
          var namespace := RemoveSuffix(infix, "-");
          if namespace == infix then false
          else AnyEquals(namespaces, namespace, ignoreCase)
  }

  /** `LicenseRef-<namespace>-<n>` without its prefix. */
  function Namespaced(namespace: string, n: string): string {
    namespace + "-" + n
  }

  /**
   * The reference meaning of "`s` is a license reference to `name`": a valid
   * name, the `LicenseRef-` prefix, and after it either the name itself or
   * `<namespace>-<name>` for a listed namespace, all comparisons honouring
   * `ignoreCase` except the prefix.
   */
  ghost predicate DenotesLicenseRef(s: string, name: string, ignoreCase: bool, namespaces: seq<string>) {
    ValidName(name) && StartsWith(s, LicenseRefPrefix) &&
    (StringEquals(s[|LicenseRefPrefix|..], name, ignoreCase) ||
     exists namespace, n ::
       s[|LicenseRefPrefix|..] == Namespaced(namespace, n) &&
       StringEquals(n, name, ignoreCase) && InNamespaces(namespaces, namespace, ignoreCase))
  }

  /** The early-return matcher decides exactly the reference meaning, in both directions. */
  lemma {:induction false} IsLicenseRefToCorrect(s: string, name: string, ignoreCase: bool, namespaces: seq<string>)
    ensures IsLicenseRefTo(s, name, ignoreCase, namespaces) <==> DenotesLicenseRef(s, name, ignoreCase, namespaces)
  {
    if IsLicenseRefTo(s, name, ignoreCase, namespaces) {
      AcceptedDenotes(s, name, ignoreCase, namespaces);
    }
    if DenotesLicenseRef(s, name, ignoreCase, namespaces) {
      DenotedAccepted(s, name, ignoreCase, namespaces);
    }
  }

  /** Every string the matcher accepts is a license reference to the name. */
  lemma AcceptedDenotes(s: string, name: string, ignoreCase: bool, namespaces: seq<string>)
    requires IsLicenseRefTo(s, name, ignoreCase, namespaces)
    ensures DenotesLicenseRef(s, name, ignoreCase, namespaces)
  {
    var rest := s[|LicenseRefPrefix|..];
    assert RemovePrefix(s, LicenseRefPrefix) == rest;
    IsLicenseRefToSound(rest, name, ignoreCase, namespaces);
  }

  /** Every license reference to the name is accepted by the matcher. */
  lemma DenotedAccepted(s: string, name: string, ignoreCase: bool, namespaces: seq<string>)
    requires DenotesLicenseRef(s, name, ignoreCase, namespaces)
    ensures IsLicenseRefTo(s, name, ignoreCase, namespaces)
  {
    var rest := s[|LicenseRefPrefix|..];
    assert RemovePrefix(s, LicenseRefPrefix) == rest;
    assert |rest| < |s|;
    if StringEquals(rest, name, ignoreCase) {
      assert rest[|rest| - |name|..] == rest;
    } else {
      var namespace, n :|
        rest == Namespaced(namespace, n) &&
        StringEquals(n, name, ignoreCase) && InNamespaces(namespaces, namespace, ignoreCase);
      IsLicenseRefToComplete(rest, namespace, n, name, ignoreCase);
    }
  }

  /** Forward half: a remainder the matcher accepts is the name or a listed namespace and the name. */
  lemma IsLicenseRefToSound(rest: string, name: string, ignoreCase: bool, namespaces: seq<string>)
    requires EndsWithCase(rest, name, ignoreCase)
    requires var infix := DropLast(rest, |name|);
      |infix| == 0 || (RemoveSuffix(infix, "-") != infix && AnyEquals(namespaces, RemoveSuffix(infix, "-"), ignoreCase))
    ensures StringEquals(rest, name, ignoreCase) ||
      exists namespace, n ::
        rest == Namespaced(namespace, n) &&
        StringEquals(n, name, ignoreCase) && InNamespaces(namespaces, namespace, ignoreCase)
  {
    var infix := DropLast(rest, |name|);
    var n := rest[|rest| - |name|..];
    assert rest == infix + n;
    if |infix| == 0 {
      assert rest == n;
    } else {
      var namespace := RemoveSuffix(infix, "-");
      assert namespace + "-" == infix;
      assert rest == Namespaced(namespace, n);
    }
  }

  /** Backward half: `<namespace>-<n>` with `n` matching the name passes every check of the matcher. */
  lemma IsLicenseRefToComplete(rest: string, namespace: string, n: string, name: string, ignoreCase: bool)
    requires rest == Namespaced(namespace, n)
    requires StringEquals(n, name, ignoreCase)
    ensures EndsWithCase(rest, name, ignoreCase)
    ensures DropLast(rest, |name|) == namespace + "-"
    ensures RemoveSuffix(namespace + "-", "-") == namespace
  {
    assert rest[|rest| - |name|..] == n;
    assert rest[..|rest| - |name|] == namespace + "-";
  }

  /** A string built as `p + rest` starts with `p`, and `rest` is what follows it. */
  lemma PrefixParts(p: string, rest: string)
    ensures StartsWith(p + rest, p) && (p + rest)[|p|..] == rest
  {
    assert (p + rest)[..|p|] == p;
  }

  /** Any `LicenseRef-<ns>-<n>` with a valid name matching `n` and a listed `ns` is accepted. */
  lemma NamespacedRefAccepted(namespace: string, n: string, name: string, ignoreCase: bool, namespaces: seq<string>)
    requires ValidName(name)
    requires StringEquals(n, name, ignoreCase)
    requires InNamespaces(namespaces, namespace, ignoreCase)
    ensures IsLicenseRefTo(LicenseRefPrefix + Namespaced(namespace, n), name, ignoreCase, namespaces)
  {
    PrefixParts(LicenseRefPrefix, Namespaced(namespace, n));
    IsLicenseRefToCorrect(LicenseRefPrefix + Namespaced(namespace, n), name, ignoreCase, namespaces);
  }

  /** `LicenseRef-<ns>-<n>` with `n` matching the name is refused when `ns` is not listed. */
  lemma NamespacedRefRefused(namespace: string, n: string, name: string, ignoreCase: bool, namespaces: seq<string>)
    requires StringEquals(n, name, ignoreCase)
    requires !InNamespaces(namespaces, namespace, ignoreCase)
    ensures !IsLicenseRefTo(LicenseRefPrefix + Namespaced(namespace, n), name, ignoreCase, namespaces)
  {
    var s := LicenseRefPrefix + Namespaced(namespace, n);
    var rest := Namespaced(namespace, n);
    PrefixParts(LicenseRefPrefix, rest);
    IsLicenseRefToCorrect(s, name, ignoreCase, namespaces);
  }

  /** Any `LicenseRef-<n>` with a valid name matching `n` is accepted, with no namespace needed. */
  lemma PlainRefAccepted(n: string, name: string, ignoreCase: bool, namespaces: seq<string>)
    requires ValidName(name)
    requires StringEquals(n, name, ignoreCase)
    ensures IsLicenseRefTo(LicenseRefPrefix + n, name, ignoreCase, namespaces)
  {
    PrefixParts(LicenseRefPrefix, n);
    IsLicenseRefToCorrect(LicenseRefPrefix + n, name, ignoreCase, namespaces);
  }

  /** `public-domain` is a usable name: not blank and not delimited by `-`. */
  lemma PublicDomainIsValidName()
    ensures ValidName("public-domain")
  {
    var name := "public-domain";
    assert !IsWhitespace(name[0]);
    assert !StartsWith(name, "-") by { assert name[0] != '-'; }
    assert !EndsWith(name, "-") by { assert name[|name| - 1] != '-'; }
  }

  /** `LicenseRef-scancode-public-domain` refers to `public-domain` through the `scancode` namespace. */
  lemma NamespacedExample()
    ensures IsLicenseRefTo("LicenseRef-scancode-public-domain", "public-domain", true, DefaultNamespaces)
  {
    var namespace, name := "scancode", "public-domain";
    PublicDomainIsValidName();
    assert StringEquals(DefaultNamespaces[4], namespace, true);
    assert StringEquals(name, name, true);
    assert "LicenseRef-scancode-public-domain" == LicenseRefPrefix + Namespaced(namespace, name);
    NamespacedRefAccepted(namespace, name, name, true, DefaultNamespaces);
  }

  /** `LicenseRef-public-domain` refers to `public-domain` without a namespace. */
  lemma PlainExample()
    ensures IsLicenseRefTo("LicenseRef-public-domain", "public-domain", true, DefaultNamespaces)
  {
    var name := "public-domain";
    PublicDomainIsValidName();
    assert StringEquals(name, name, true);
    assert "LicenseRef-public-domain" == LicenseRefPrefix + name;
    PlainRefAccepted(name, name, true, DefaultNamespaces);
  }

  /** A namespace outside the list is refused. */
  lemma UnknownNamespaceExample()
    ensures !IsLicenseRefTo("LicenseRef-unknown-tool-public-domain", "public-domain", true, DefaultNamespaces)
  {
    var namespace, name := "unknown-tool", "public-domain";
    PublicDomainIsValidName();
    assert StringEquals(name, name, true);
    assert !InNamespaces(DefaultNamespaces, namespace, true);
    assert "LicenseRef-unknown-tool-public-domain" == LicenseRefPrefix + Namespaced(namespace, name);
    NamespacedRefRefused(namespace, name, name, true, DefaultNamespaces);
  }

  /** A candidate without the prefix, and a blank name, are refused. */
  lemma MissingPrefixOrBlankNameExample()
    ensures !IsLicenseRefTo("Public-domain", "public-domain", true, DefaultNamespaces)
    ensures !IsLicenseRefTo("LicenseRef-public-domain", "", true, DefaultNamespaces)
  {
    assert !StartsWith("Public-domain", LicenseRefPrefix) by {
      assert "Public-domain"[0] != LicenseRefPrefix[0];
    }
  }

  /** Ignoring case, `Public-Domain` matches `public-domain`. */
  lemma PublicDomainIgnoringCase()
    ensures StringEquals("Public-Domain", "public-domain", true)
  {
    var a, b := "Public-Domain", "public-domain";
    forall i | 0 <= i < |a| ensures CharEquals(a[i], b[i], true) {
      if i == 0 || i == 7 {
        assert AsciiUpper(b[i]) == a[i];
      }
    }
  }

  /** Ignoring case, `scancode` in the default list matches `ScanCode`. */
  lemma ScanCodeIgnoringCase()
    ensures StringEquals(DefaultNamespaces[4], "ScanCode", true)
  {
    var a, b := DefaultNamespaces[4], "ScanCode";
    forall i | 0 <= i < |a| ensures CharEquals(a[i], b[i], true) {
      if i == 0 || i == 4 {
        assert AsciiUpper(a[i]) == b[i];
      }
    }
  }

  /** Case is ignored by default in both the namespace and the name. */
  lemma IgnoreCaseExample()
    ensures IsLicenseRefTo("LicenseRef-ScanCode-Public-Domain", "public-domain", true, DefaultNamespaces)
  {
    var namespace, n := "ScanCode", "Public-Domain";
    PublicDomainIsValidName();
    PublicDomainIgnoringCase();
    ScanCodeIgnoringCase();
    assert "LicenseRef-ScanCode-Public-Domain" == LicenseRefPrefix + Namespaced(namespace, n);
    NamespacedRefAccepted(namespace, n, "public-domain", true, DefaultNamespaces);
  }

  /** Asked to respect case, the matcher refuses a name written in another case. */
  lemma RespectCaseExample()
    ensures !IsLicenseRefTo("LicenseRef-ScanCode-Public-Domain", "public-domain", false, DefaultNamespaces)
  {
    assert !EndsWith("LicenseRef-ScanCode-Public-Domain", "public-domain") by {
      assert "LicenseRef-ScanCode-Public-Domain"[20] != "public-domain"[0];
    }
  }

  /** The prefix is matched case-sensitively even when case is otherwise ignored. */
  lemma PrefixCaseExample()
    ensures !IsLicenseRefTo("licenseref-public-domain", "public-domain", true, DefaultNamespaces)
  {
    assert !StartsWith("licenseref-public-domain", LicenseRefPrefix) by {
      assert "licenseref-public-domain"[0] != LicenseRefPrefix[0];
    }
  }
}
