/** The scene objects the tracer works on (src/Scene/Ray.hpp, src/Scene/Prism.hpp). */
module Scene {
  import opened VectorOps

  /** An 8-bit colour channel of `sf::Color`. */
  type Channel = c: int | 0 <= c < 256

  /** `sf::Color` without its alpha channel, which the tracer never sets. */
  datatype Color = Color(r: Channel, g: Channel, b: Channel)

  /** `sf::Color()`: opaque black. */
  const Black := Color(0, 0, 0)

  /** Ray (Ray.hpp:6-11): a colour, a wavelength in nanometres, the polyline of the
      traced path, and whether the ray left the scene. */
  datatype Ray = Ray(color: Color, wavelength: real, points: seq<Vec2>, valid: bool)

  /** A value-initialised Ray, as `std::vector<Ray>(n)` makes them: no points and
      `valid == false` (Ray.hpp:10). */
  const DefaultRay := Ray(Black, 0.0, [], false)

  /** A triangular prism: its centre `pos` and its three vertices, given in the order
      `Prism::getVertices` produces them. */
  datatype Prism = Prism(pos: Vec2, v0: Vec2, v1: Vec2, v2: Vec2)

  /** `getVertices()[i]`. */
  function Vertex(p: Prism, i: nat): Vec2
    requires i < 3
  {
    if i == 0 then p.v0 else if i == 1 then p.v1 else p.v2
  }
}
