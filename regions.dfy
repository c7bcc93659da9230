/** The four fixed eigenvalue-selection predicates of GEES, evaluated natively. */
module Regions {
  import opened Values

  /** re^2 + im^2 */
  function SquaredModulus(z: Complex): real
  {
    z.re * z.re + z.im * z.im
  }

  predicate SelectLeftPlane(z: Complex) { z.re < 0.0 }

  predicate SelectRightPlane(z: Complex) { z.re > 0.0 }

  predicate SelectDiskInterior(z: Complex) { SquaredModulus(z) < 1.0 }

  predicate SelectDiskExterior(z: Complex) { SquaredModulus(z) > 1.0 }

  datatype Region = LeftPlane | RightPlane | DiskInterior | DiskExterior

  /** The fixed predicate that a region names. */
  predicate InRegion(r: Region, z: Complex)
  {
    match r
    case LeftPlane => SelectLeftPlane(z)
    case RightPlane => SelectRightPlane(z)
    case DiskInterior => SelectDiskInterior(z)
    case DiskExterior => SelectDiskExterior(z)
  }

  /** The two half planes never overlap, and the imaginary axis is in neither. */
  lemma HalfPlanesPartition(z: Complex)
    ensures !(SelectLeftPlane(z) && SelectRightPlane(z))
    ensures !SelectLeftPlane(z) && !SelectRightPlane(z) <==> z.re == 0.0
  {
  }

  /** Interior and exterior never overlap, and the unit circle is in neither. */
  lemma DisksPartition(z: Complex)
    ensures !(SelectDiskInterior(z) && SelectDiskExterior(z))
    ensures !SelectDiskInterior(z) && !SelectDiskExterior(z) <==> SquaredModulus(z) == 1.0
  {
  }
}
