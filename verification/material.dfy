/**
  Surface materials and the Phong shading of a point lit by a point light:
  an ambient term that is always present, a diffuse term when the light is
  on the lit side of the surface, and a specular term when the reflected
  light also heads towards the eye. `normalize` and `powf` are the abstract
  square root and power of Base.
 */
module Materials {
  import opened Base
  import opened Tuples
  import Colors
  import opened Lights

  /** `Material::new` and the five getters. */
  datatype Material = Material(color: Colors.Color, ambient: real, diffuse: real, specular: real, shininess: real)

  const White: Colors.Color := Colors.NewColor(1.0, 1.0, 1.0)

  /** `Material::default`: white, ambient 0.1, diffuse 0.9, specular 0.9, shininess 200. */
  const DefaultMaterial: Material := Material(White, 0.1, 0.9, 0.9, 200.0)

  // The five setters; each replaces its own field and keeps the other four.

  function SetColor(m: Material, color: Colors.Color): (r: Material)
    ensures r.color == color
    ensures r.ambient == m.ambient && r.diffuse == m.diffuse && r.specular == m.specular && r.shininess == m.shininess
  {
    m.(color := color)
  }

  function SetAmbient(m: Material, ambient: real): (r: Material)
    ensures r.ambient == ambient
    ensures r.color == m.color && r.diffuse == m.diffuse && r.specular == m.specular && r.shininess == m.shininess
  {
    m.(ambient := ambient)
  }

  function SetDiffuse(m: Material, diffuse: real): (r: Material)
    ensures r.diffuse == diffuse
    ensures r.color == m.color && r.ambient == m.ambient && r.specular == m.specular && r.shininess == m.shininess
  {
    m.(diffuse := diffuse)
  }

  function SetSpecular(m: Material, specular: real): (r: Material)
    ensures r.specular == specular
    ensures r.color == m.color && r.ambient == m.ambient && r.diffuse == m.diffuse && r.shininess == m.shininess
  {
    m.(specular := specular)
  }

  function SetShininess(m: Material, shininess: real): (r: Material)
    ensures r.shininess == shininess
    ensures r.color == m.color && r.ambient == m.ambient && r.diffuse == m.diffuse && r.specular == m.specular
  {
    m.(shininess := shininess)
  }

  /**
    Setters behave as field updates: writing back the current value changes
    nothing, the last of two writes to a field wins, and writes to different
    fields commute.
   */
  lemma SetterLaws(m: Material, c: Colors.Color, a: real, b: real)
    ensures SetColor(m, m.color) == m && SetAmbient(m, m.ambient) == m && SetDiffuse(m, m.diffuse) == m
    ensures SetSpecular(m, m.specular) == m && SetShininess(m, m.shininess) == m
    ensures SetAmbient(SetAmbient(m, a), b) == SetAmbient(m, b)
    ensures SetColor(SetColor(m, c), White) == SetColor(m, White)
    ensures SetAmbient(SetDiffuse(m, a), b) == SetDiffuse(SetAmbient(m, b), a)
    ensures SetSpecular(SetShininess(m, a), b) == SetShininess(SetSpecular(m, b), a)
    ensures SetColor(SetShininess(m, a), c) == SetShininess(SetColor(m, c), a)
  {
  }

  /** `PartialEq`: the four scalars within EPSILON of each other and the colors equal as colors. */
  predicate Equal(a: Material, b: Material)
  {
    && ApproxEqual(a.ambient, b.ambient)
    && ApproxEqual(a.diffuse, b.diffuse)
    && ApproxEqual(a.specular, b.specular)
    && ApproxEqual(a.shininess, b.shininess)
    && Colors.ApproxEq(a.color, b.color)
  }

  /**
    Material equality is reflexive and symmetric; a scalar moved by EPSILON
    still compares equal, one moved by twice that does not.
   */
  lemma EqualLaws(a: Material, b: Material)
    ensures Equal(a, a)
    ensures Equal(a, b) <==> Equal(b, a)
    ensures Equal(a, SetShininess(a, a.shininess + EPSILON))
    ensures !Equal(a, SetAmbient(a, a.ambient + 2.0 * EPSILON))
  {
    Tuples.ApproxEqLaws(a.color.tuple, b.color.tuple);
    Tuples.ApproxEqLaws(b.color.tuple, a.color.tuple);
  }

  /** The unit vector from the shaded position towards the light. */
  function LightVector(sqrt: real -> real, light: PointLight, position: Tuple): (l: Tuple)
    requires IsSqrt(sqrt)
    requires Sub(light.position, position) != Zero
    ensures Dot(l, l) == 1.0
    ensures Scale(l, Magnitude(sqrt, Sub(light.position, position))) == Sub(light.position, position)
  {
    Normalize(sqrt, Sub(light.position, position))
  }

  /** The cosine between the light vector and the normal; negative when the light is behind the surface. */
  function LightDotNormal(sqrt: real -> real, light: PointLight, position: Tuple, normal: Tuple): real
    requires IsSqrt(sqrt)
    requires Sub(light.position, position) != Zero
  {
    Dot(LightVector(sqrt, light, position), normal)
  }

  /** The cosine between the reflected light and the eye vector; negative when the light reflects away from the eye. */
  function ReflectDotEye(sqrt: real -> real, light: PointLight, position: Tuple, eye: Tuple, normal: Tuple): real
    requires IsSqrt(sqrt)
    requires Sub(light.position, position) != Zero
  {
    Dot(Reflect(Neg(LightVector(sqrt, light, position)), normal), eye)
  }

  /**
    Reference definition of one channel of the Phong sum, for a surface
    channel `surface` lit by a light channel `source` at cosines `ldn` and
    `rde`: ambient always, diffuse from ldn >= 0 on, specular only when in
    addition rde > 0.
   */
  function PhongChannel(surface: real, source: real, m: Material, ldn: real, rde: real, pow: (real, real) -> real): real
  {
    var ambient := surface * source * m.ambient;
    if ldn < 0.0 then ambient
    else if rde <= 0.0 then ambient + surface * source * m.diffuse * ldn
    else ambient + surface * source * m.diffuse * ldn + source * m.specular * pow(rde, m.shininess)
  }

  /**
    The color arithmetic of `lighting` once the two cosines are known: the
    effective color (surface times light) scaled by the ambient coefficient,
    plus a diffuse and a specular color that start black and are replaced on
    the branches the cosines select. The sum is not clamped.
   */
  function Shade(m: Material, light: PointLight, ldn: real, rde: real, pow: (real, real) -> real): (c: Colors.Color)
    ensures Colors.Red(c) == PhongChannel(Colors.Red(m.color), Colors.Red(light.intensity), m, ldn, rde, pow)
    ensures Colors.Green(c) == PhongChannel(Colors.Green(m.color), Colors.Green(light.intensity), m, ldn, rde, pow)
    ensures Colors.Blue(c) == PhongChannel(Colors.Blue(m.color), Colors.Blue(light.intensity), m, ldn, rde, pow)
    ensures ldn < 0.0 ==> c == Colors.Scale(Colors.Hadamard(m.color, light.intensity), m.ambient)
    ensures Colors.Valid(light.intensity) ==> Colors.Valid(c)
  {
    var effective := Colors.Hadamard(m.color, light.intensity);
    var ambient := Colors.Scale(effective, m.ambient);
    var diffuse := if ldn >= 0.0 then Colors.Scale(Colors.Scale(effective, m.diffuse), ldn) else Colors.Black;
    var specular :=
      if ldn >= 0.0 && rde > 0.0 then Colors.Scale(Colors.Scale(light.intensity, m.specular), pow(rde, m.shininess))
      else Colors.Black;
    ShadeOfParts(m, light, ldn, rde, pow, ambient, diffuse, specular);
    Colors.Add(Colors.Add(ambient, diffuse), specular)
  }

  /** The three color terms of `lighting` add up, channel by channel, to the reference sums. */
  lemma ShadeOfParts(m: Material, light: PointLight, ldn: real, rde: real, pow: (real, real) -> real,
                     ambient: Colors.Color, diffuse: Colors.Color, specular: Colors.Color)
    requires ambient == Colors.Scale(Colors.Hadamard(m.color, light.intensity), m.ambient)
    requires diffuse == if ldn >= 0.0 then Colors.Scale(Colors.Scale(Colors.Hadamard(m.color, light.intensity), m.diffuse), ldn)
                        else Colors.Black
    requires specular == if ldn >= 0.0 && rde > 0.0 then Colors.Scale(Colors.Scale(light.intensity, m.specular), pow(rde, m.shininess))
                         else Colors.Black
    ensures var c := Colors.Add(Colors.Add(ambient, diffuse), specular);
      && Colors.Red(c) == PhongChannel(Colors.Red(m.color), Colors.Red(light.intensity), m, ldn, rde, pow)
      && Colors.Green(c) == PhongChannel(Colors.Green(m.color), Colors.Green(light.intensity), m, ldn, rde, pow)
      && Colors.Blue(c) == PhongChannel(Colors.Blue(m.color), Colors.Blue(light.intensity), m, ldn, rde, pow)
  {
    if ldn < 0.0 {
      ShadeBehind(m, light, ldn, rde, pow, ambient, diffuse, specular);
    } else if rde <= 0.0 {
      ShadeMatte(m, light, ldn, rde, pow, ambient, diffuse, specular);
    } else {
      ShadeHighlight(m, light, ldn, rde, pow, ambient, diffuse, specular);
    }
  }

  /** Light behind the surface: only the ambient term. */
  lemma ShadeBehind(m: Material, light: PointLight, ldn: real, rde: real, pow: (real, real) -> real,
                    ambient: Colors.Color, diffuse: Colors.Color, specular: Colors.Color)
    requires ldn < 0.0
    requires ambient == Colors.Scale(Colors.Hadamard(m.color, light.intensity), m.ambient)
    requires diffuse == Colors.Black && specular == Colors.Black
    ensures var c := Colors.Add(Colors.Add(ambient, diffuse), specular);
      && Colors.Red(c) == PhongChannel(Colors.Red(m.color), Colors.Red(light.intensity), m, ldn, rde, pow)
      && Colors.Green(c) == PhongChannel(Colors.Green(m.color), Colors.Green(light.intensity), m, ldn, rde, pow)
      && Colors.Blue(c) == PhongChannel(Colors.Blue(m.color), Colors.Blue(light.intensity), m, ldn, rde, pow)
  {
    ScaledProduct(m.color, light.intensity, m.ambient);
    Colors.BlackIsDefault();
    SumOfThree(ambient, diffuse, specular);
  }

  /** Light on the lit side, reflection away from the eye: ambient and diffuse terms. */
  lemma ShadeMatte(m: Material, light: PointLight, ldn: real, rde: real, pow: (real, real) -> real,
                   ambient: Colors.Color, diffuse: Colors.Color, specular: Colors.Color)
    requires ldn >= 0.0 && rde <= 0.0
    requires ambient == Colors.Scale(Colors.Hadamard(m.color, light.intensity), m.ambient)
    requires diffuse == Colors.Scale(Colors.Scale(Colors.Hadamard(m.color, light.intensity), m.diffuse), ldn)
    requires specular == Colors.Black
    ensures var c := Colors.Add(Colors.Add(ambient, diffuse), specular);
      && Colors.Red(c) == PhongChannel(Colors.Red(m.color), Colors.Red(light.intensity), m, ldn, rde, pow)
      && Colors.Green(c) == PhongChannel(Colors.Green(m.color), Colors.Green(light.intensity), m, ldn, rde, pow)
      && Colors.Blue(c) == PhongChannel(Colors.Blue(m.color), Colors.Blue(light.intensity), m, ldn, rde, pow)
  {
    ScaledProduct(m.color, light.intensity, m.ambient);
    DiffuseTerms(m.color, light.intensity, m.diffuse, ldn, diffuse);
    Colors.BlackIsDefault();
    SumOfThree(ambient, diffuse, specular);
  }

  /** Light on the lit side and reflected towards the eye: all three terms. */
  lemma ShadeHighlight(m: Material, light: PointLight, ldn: real, rde: real, pow: (real, real) -> real,
                       ambient: Colors.Color, diffuse: Colors.Color, specular: Colors.Color)
    requires ldn >= 0.0 && rde > 0.0
    requires ambient == Colors.Scale(Colors.Hadamard(m.color, light.intensity), m.ambient)
    requires diffuse == Colors.Scale(Colors.Scale(Colors.Hadamard(m.color, light.intensity), m.diffuse), ldn)
    requires specular == Colors.Scale(Colors.Scale(light.intensity, m.specular), pow(rde, m.shininess))
    ensures var c := Colors.Add(Colors.Add(ambient, diffuse), specular);
      && Colors.Red(c) == PhongChannel(Colors.Red(m.color), Colors.Red(light.intensity), m, ldn, rde, pow)
      && Colors.Green(c) == PhongChannel(Colors.Green(m.color), Colors.Green(light.intensity), m, ldn, rde, pow)
      && Colors.Blue(c) == PhongChannel(Colors.Blue(m.color), Colors.Blue(light.intensity), m, ldn, rde, pow)
  {
    ScaledProduct(m.color, light.intensity, m.ambient);
    DiffuseTerms(m.color, light.intensity, m.diffuse, ldn, diffuse);
    SpecularTerms(light.intensity, m.specular, ldn, rde, pow(rde, m.shininess), specular);
    SumOfThree(ambient, diffuse, specular);
  }

  /** Adding three colors adds their channels. */
  lemma SumOfThree(a: Colors.Color, b: Colors.Color, c: Colors.Color)
    ensures var sum := Colors.Add(Colors.Add(a, b), c);
      && Colors.Red(sum) == Colors.Red(a) + Colors.Red(b) + Colors.Red(c)
      && Colors.Green(sum) == Colors.Green(a) + Colors.Green(b) + Colors.Green(c)
      && Colors.Blue(sum) == Colors.Blue(a) + Colors.Blue(b) + Colors.Blue(c)
  {
  }

  /** The product of two colors scaled by a factor, channel by channel. */
  lemma ScaledProduct(c: Colors.Color, l: Colors.Color, factor: real)
    ensures var e := Colors.Scale(Colors.Hadamard(c, l), factor);
      && Colors.Red(e) == Colors.Red(c) * Colors.Red(l) * factor
      && Colors.Green(e) == Colors.Green(c) * Colors.Green(l) * factor
      && Colors.Blue(e) == Colors.Blue(c) * Colors.Blue(l) * factor
  {
    Colors.ChannelWise(c, l, factor);
    Colors.ChannelWise(Colors.Hadamard(c, l), l, factor);
  }

  /** The diffuse term, channel by channel: the scaled product times the cosine, or black when the light is behind. */
  lemma DiffuseTerms(c: Colors.Color, l: Colors.Color, factor: real, ldn: real, diffuse: Colors.Color)
    requires diffuse == if ldn >= 0.0 then Colors.Scale(Colors.Scale(Colors.Hadamard(c, l), factor), ldn) else Colors.Black
    ensures Colors.Red(diffuse) == if ldn >= 0.0 then Colors.Red(c) * Colors.Red(l) * factor * ldn else 0.0
    ensures Colors.Green(diffuse) == if ldn >= 0.0 then Colors.Green(c) * Colors.Green(l) * factor * ldn else 0.0
    ensures Colors.Blue(diffuse) == if ldn >= 0.0 then Colors.Blue(c) * Colors.Blue(l) * factor * ldn else 0.0
  {
    if ldn >= 0.0 {
      var scaled := Colors.Scale(Colors.Hadamard(c, l), factor);
      ScaledProduct(c, l, factor);
      Colors.ChannelWise(scaled, l, ldn);
    } else {
      Colors.BlackIsDefault();
    }
  }

  /** The specular term, channel by channel: the light's channel times the factor and the power, or black. */
  lemma SpecularTerms(l: Colors.Color, factor: real, ldn: real, rde: real, p: real, specular: Colors.Color)
    requires specular == if ldn >= 0.0 && rde > 0.0 then Colors.Scale(Colors.Scale(l, factor), p) else Colors.Black
    ensures Colors.Red(specular) == if ldn >= 0.0 && rde > 0.0 then Colors.Red(l) * factor * p else 0.0
    ensures Colors.Green(specular) == if ldn >= 0.0 && rde > 0.0 then Colors.Green(l) * factor * p else 0.0
    ensures Colors.Blue(specular) == if ldn >= 0.0 && rde > 0.0 then Colors.Blue(l) * factor * p else 0.0
  {
    if ldn >= 0.0 && rde > 0.0 {
      Colors.ChannelWise(l, l, factor);
      Colors.ChannelWise(Colors.Scale(l, factor), l, p);
    } else {
      Colors.BlackIsDefault();
    }
  }

  /** `lighting`: the shade at the cosines of the light vector with the normal and of its reflection with the eye. */
  function Lighting(m: Material, light: PointLight, position: Tuple, eye: Tuple, normal: Tuple,
                    sqrt: real -> real, pow: (real, real) -> real): (c: Colors.Color)
    requires IsSqrt(sqrt)
    requires Sub(light.position, position) != Zero
    ensures
      var ldn := LightDotNormal(sqrt, light, position, normal);
      var rde := ReflectDotEye(sqrt, light, position, eye, normal);
      && Colors.Red(c) == PhongChannel(Colors.Red(m.color), Colors.Red(light.intensity), m, ldn, rde, pow)
      && Colors.Green(c) == PhongChannel(Colors.Green(m.color), Colors.Green(light.intensity), m, ldn, rde, pow)
      && Colors.Blue(c) == PhongChannel(Colors.Blue(m.color), Colors.Blue(light.intensity), m, ldn, rde, pow)
    ensures LightDotNormal(sqrt, light, position, normal) < 0.0 ==>
      c == Colors.Scale(Colors.Hadamard(m.color, light.intensity), m.ambient)
    ensures Colors.Valid(light.intensity) ==> Colors.Valid(c)
  {
    Shade(m, light, LightDotNormal(sqrt, light, position, normal), ReflectDotEye(sqrt, light, position, eye, normal), pow)
  }

  /** A product of four non-negative reals, passed in as `p`, is non-negative. */
  lemma NonNegativeProduct(a: real, b: real, c: real, d: real, p: real)
    requires a >= 0.0 && b >= 0.0 && c >= 0.0 && d >= 0.0
    requires p == a * b * c * d
    ensures p >= 0.0
  {
    assert a * b >= 0.0;
    assert a * b * c >= 0.0;
  }

  /**
    With non-negative channels and coefficients, the diffuse and specular
    terms only add light: every channel is at least its ambient part.
   */
  lemma PhongAtLeastAmbient(surface: real, source: real, m: Material, ldn: real, rde: real, pow: (real, real) -> real)
    requires IsPow(pow)
    requires surface >= 0.0 && source >= 0.0
    requires m.ambient >= 0.0 && m.diffuse >= 0.0 && m.specular >= 0.0
    ensures PhongChannel(surface, source, m, ldn, rde, pow) >= surface * source * m.ambient
    ensures surface * source * m.ambient >= 0.0
  {
    NonNegativeProduct(surface, source, m.ambient, 1.0, surface * source * m.ambient * 1.0);
    if ldn >= 0.0 {
      NonNegativeProduct(surface, source, m.diffuse, ldn, surface * source * m.diffuse * ldn);
      if rde > 0.0 {
        PowOf(pow, rde, m.shininess);
        NonNegativeProduct(source, m.specular, pow(rde, m.shininess), 1.0, source * m.specular * pow(rde, m.shininess) * 1.0);
      }
    }
  }

  /** `lighting` never darkens below the ambient color when every input is non-negative. */
  lemma LightingAtLeastAmbient(m: Material, light: PointLight, position: Tuple, eye: Tuple, normal: Tuple,
                               sqrt: real -> real, pow: (real, real) -> real)
    requires IsSqrt(sqrt) && IsPow(pow)
    requires Sub(light.position, position) != Zero
    requires Colors.Red(m.color) >= 0.0 && Colors.Green(m.color) >= 0.0 && Colors.Blue(m.color) >= 0.0
    requires Colors.Red(light.intensity) >= 0.0 && Colors.Green(light.intensity) >= 0.0 && Colors.Blue(light.intensity) >= 0.0
    requires m.ambient >= 0.0 && m.diffuse >= 0.0 && m.specular >= 0.0
    ensures
      var c := Lighting(m, light, position, eye, normal, sqrt, pow);
      var ambient := Colors.Scale(Colors.Hadamard(m.color, light.intensity), m.ambient);
      && Colors.Red(c) >= Colors.Red(ambient) >= 0.0
      && Colors.Green(c) >= Colors.Green(ambient) >= 0.0
      && Colors.Blue(c) >= Colors.Blue(ambient) >= 0.0
  {
    var ldn := LightDotNormal(sqrt, light, position, normal);
    var rde := ReflectDotEye(sqrt, light, position, eye, normal);
    PhongAtLeastAmbient(Colors.Red(m.color), Colors.Red(light.intensity), m, ldn, rde, pow);
    PhongAtLeastAmbient(Colors.Green(m.color), Colors.Green(light.intensity), m, ldn, rde, pow);
    PhongAtLeastAmbient(Colors.Blue(m.color), Colors.Blue(light.intensity), m, ldn, rde, pow);
  }

  /** A light at distance d > 0 along the unit direction u is seen along u. */
  lemma LightAlong(sqrt: real -> real, light: PointLight, position: Tuple, u: Tuple, d: real)
    requires IsSqrt(sqrt)
    requires Dot(u, u) == 1.0 && d > 0.0
    requires Sub(light.position, position) == Scale(u, d)
    ensures Sub(light.position, position) != Zero
    ensures LightVector(sqrt, light, position) == u
  {
    NormalizeScaledUnit(sqrt, u, d);
  }

  /**
    A light behind the surface (its direction makes a negative dot product
    with the normal) leaves only the ambient color.
   */
  lemma LightingLightBehind(m: Material, light: PointLight, position: Tuple, eye: Tuple, normal: Tuple,
                            sqrt: real -> real, pow: (real, real) -> real, u: Tuple, d: real)
    requires IsSqrt(sqrt)
    requires Dot(u, u) == 1.0 && d > 0.0
    requires Sub(light.position, position) == Scale(u, d)
    requires Dot(u, normal) < 0.0
    ensures Sub(light.position, position) != Zero
    ensures Lighting(m, light, position, eye, normal, sqrt, pow) == Colors.Scale(Colors.Hadamard(m.color, light.intensity), m.ambient)
  {
    LightAlong(sqrt, light, position, u, d);
  }

  /** Reflecting the reversed unit normal about itself gives the normal back, at cosine 1 with it. */
  lemma ReflectReversedNormal(n: Tuple)
    requires Dot(n, n) == 1.0
    ensures Dot(n, n) == 1.0 && Dot(Reflect(Neg(n), n), n) == 1.0
  {
    NegationLaws(n, n);
    DotLinear(n, n, n, -1.0);
    ReflectAboutUnitNormal(Neg(n), n);
  }

  /**
    Eye, normal and light direction all along the same unit vector: both
    cosines are 1, so every term contributes in full and `powf` is taken of 1.
   */
  lemma LightingHeadOn(m: Material, light: PointLight, position: Tuple, normal: Tuple,
                       sqrt: real -> real, pow: (real, real) -> real, d: real)
    requires IsSqrt(sqrt) && IsPow(pow)
    requires Dot(normal, normal) == 1.0 && d > 0.0
    requires Sub(light.position, position) == Scale(normal, d)
    ensures Sub(light.position, position) != Zero
    ensures
      var c := Lighting(m, light, position, normal, normal, sqrt, pow);
      && Colors.Red(c) == HeadOnChannel(Colors.Red(m.color), Colors.Red(light.intensity), m)
      && Colors.Green(c) == HeadOnChannel(Colors.Green(m.color), Colors.Green(light.intensity), m)
      && Colors.Blue(c) == HeadOnChannel(Colors.Blue(m.color), Colors.Blue(light.intensity), m)
    ensures Colors.Valid(light.intensity) ==>
      Lighting(m, light, position, normal, normal, sqrt, pow) == Colors.NewColor(
        HeadOnChannel(Colors.Red(m.color), Colors.Red(light.intensity), m),
        HeadOnChannel(Colors.Green(m.color), Colors.Green(light.intensity), m),
        HeadOnChannel(Colors.Blue(m.color), Colors.Blue(light.intensity), m))
  {
    LightAlong(sqrt, light, position, normal, d);
    ReflectReversedNormal(normal);
    PowOf(pow, 1.0, m.shininess);
    var c := Lighting(m, light, position, normal, normal, sqrt, pow);
    if Colors.Valid(light.intensity) {
      Colors.ChannelsRoundTrip(c);
    }
  }

  /** One channel of the head-on shade: ambient and diffuse of the surface color, plus the full specular of the light. */
  function HeadOnChannel(surface: real, source: real, m: Material): real
  {
    surface * source * m.ambient + surface * source * m.diffuse * 1.0 + source * m.specular * 1.0
  }

  // The source's examples: the shaded point at the origin with normal (0, 0, -1).

  const Surface: Tuple := Point(0.0, 0.0, 0.0)
  const Facing: Tuple := Vector(0.0, 0.0, -1.0)
  const Away: Tuple := Vector(0.0, 0.0, 1.0)
  /** A white light ten units in front of the surface, on the side of the eye. */
  const FrontLight: PointLight := PointLight(Point(0.0, 0.0, -10.0), White)
  /** A white light ten units behind the surface. */
  const BackLight: PointLight := PointLight(Point(0.0, 0.0, 10.0), White)

  lemma ExampleGeometry()
    ensures Dot(Facing, Facing) == 1.0 && Dot(Away, Away) == 1.0 && Dot(Away, Facing) < 0.0
    ensures Sub(FrontLight.position, Surface) == Scale(Facing, 10.0)
    ensures Sub(BackLight.position, Surface) == Scale(Away, 10.0)
  {
  }

  /** The head-on channel of the default material in white light is 0.1 + 0.9 + 0.9. */
  lemma DefaultHeadOnChannel()
    ensures HeadOnChannel(Colors.Red(White), Colors.Red(White), DefaultMaterial) == 1.9
    ensures HeadOnChannel(Colors.Green(White), Colors.Green(White), DefaultMaterial) == 1.9
    ensures HeadOnChannel(Colors.Blue(White), Colors.Blue(White), DefaultMaterial) == 1.9
  {
  }

  /** The ambient part of the default material in white light is 0.1 in every channel. */
  lemma DefaultAmbientShade()
    ensures Colors.Scale(Colors.Hadamard(DefaultMaterial.color, White), DefaultMaterial.ambient) == Colors.NewColor(0.1, 0.1, 0.1)
  {
  }

  /** Eye and light straight in front of the surface: 1.9 per channel. */
  lemma LightingExampleHeadOn(sqrt: real -> real, pow: (real, real) -> real)
    requires IsSqrt(sqrt) && IsPow(pow)
    ensures Sub(FrontLight.position, Surface) != Zero
    ensures Lighting(DefaultMaterial, FrontLight, Surface, Facing, Facing, sqrt, pow) == Colors.NewColor(1.9, 1.9, 1.9)
  {
    ExampleGeometry();
    LightingHeadOn(DefaultMaterial, FrontLight, Surface, Facing, sqrt, pow, 10.0);
    DefaultHeadOnChannel();
  }

  /** The light behind the surface: only the ambient 0.1 per channel. */
  lemma LightingExampleBehind(sqrt: real -> real, pow: (real, real) -> real)
    requires IsSqrt(sqrt)
    ensures Sub(BackLight.position, Surface) != Zero
    ensures Lighting(DefaultMaterial, BackLight, Surface, Facing, Facing, sqrt, pow) == Colors.NewColor(0.1, 0.1, 0.1)
  {
    ExampleGeometry();
    LightingLightBehind(DefaultMaterial, BackLight, Surface, Facing, Facing, sqrt, pow, Away, 10.0);
    DefaultAmbientShade();
  }
}
