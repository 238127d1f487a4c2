/** The point light that shading reads: a position and an intensity, fixed at construction. */
module Lights {
  import opened Tuples
  import opened Colors

  /** `position` and `intensity` read the two fields back; there is no setter. */
  datatype PointLight = PointLight(position: Tuple, intensity: Color)

  /** `PointLight::new` stores both arguments as given, without normalising or clamping them. */
  function NewLight(position: Tuple, intensity: Color): (l: PointLight)
    ensures l.position == position && l.intensity == intensity
  {
    PointLight(position, intensity)
  }

  /** A light is determined by what its two accessors return. */
  lemma LightFromAccessors(l: PointLight)
    ensures NewLight(l.position, l.intensity) == l
  {
  }
}
