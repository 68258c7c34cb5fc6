/**
 * The SPDX expression tree and the catalog entries that the helpers in
 * `Extensions.kt` build from. Only the fields those helpers read are kept:
 * a license's id and deprecation flag, an exception's id.
 */
module SpdxModel {

  /** The three operators of an SPDX license expression. */
  datatype SpdxOperator = AND | OR | WITH

  /** An SPDX expression: a license-id leaf, a license-exception leaf, or a binary compound node. */
  datatype SpdxExpression =
    | SpdxLicenseIdExpression(id: string, orLaterVersion: bool)
    | SpdxLicenseExceptionExpression(id: string)
    | SpdxCompoundExpression(left: SpdxExpression, operator: SpdxOperator, right: SpdxExpression)

  /** A catalog license: its SPDX id and whether the SPDX license list marks it deprecated. */
  datatype SpdxLicense = SpdxLicense(id: string, deprecated: bool)

  /** A catalog license exception. */
  datatype SpdxLicenseException = SpdxLicenseException(id: string)

  /**
   * The shape of a valid SPDX expression (SPDX 2.x, Annex D): `WITH` joins
   * a single license id on its left to a single exception on its right;
   * `AND` and `OR` join two valid expressions; an exception never stands
   * anywhere else.
   */
  predicate WellFormed(e: SpdxExpression) {
    match e
    case SpdxLicenseIdExpression(_, _) => true
    case SpdxLicenseExceptionExpression(_) => false
    case SpdxCompoundExpression(l, op, r) =>
      if op == WITH then l.SpdxLicenseIdExpression? && r.SpdxLicenseExceptionExpression?
      else WellFormed(l) && WellFormed(r)
  }
}
