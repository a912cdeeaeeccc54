/** Integer vectors and colours: the engine value types (Godot's Vector3I, the
    integer-valued Vector3 positions the meshers emit, and Color) as the voxel
    core uses them. */
module Geometry {

  /** One of the three coordinate axes: 0 = X, 1 = Y, 2 = Z. */
  type Axis = a: int | 0 <= a < 3

  /** An integer 3D vector. */
  datatype Vec3 = Vec3(x: int, y: int, z: int) {

    /** The component along `axis` (Godot's `v[axis]` indexer). */
    function Get(axis: Axis): int {
      if axis == 0 then x else if axis == 1 then y else z
    }

    function Plus(o: Vec3): Vec3 { Vec3(x + o.x, y + o.y, z + o.z) }

    function Minus(o: Vec3): Vec3 { Vec3(x - o.x, y - o.y, z - o.z) }

    function Negate(): Vec3 { Vec3(-x, -y, -z) }

    function Dot(o: Vec3): int { x * o.x + y * o.y + z * o.z }

    function Cross(o: Vec3): Vec3 {
      Vec3(y * o.z - z * o.y, z * o.x - x * o.z, x * o.y - y * o.x)
    }
  }

  const Zero := Vec3(0, 0, 0)

  /** The vector with `c` along `axis` and 0 elsewhere (`var d = new
      Vector3(); d[axis] = c;`). */
  function Along(axis: Axis, c: int): (d: Vec3)
    ensures d.Get(axis) == c
    ensures d.Get(UAxis(axis)) == 0 && d.Get(VAxis(axis)) == 0
  {
    if axis == 0 then Vec3(c, 0, 0) else if axis == 1 then Vec3(0, c, 0) else Vec3(0, 0, c)
  }

  /** Two vectors along one axis: their dot product is the product of their
      components. */
  lemma AlongDot(axis: Axis, a: int, b: int)
    ensures Along(axis, a).Dot(Along(axis, b)) == a * b
  {
  }

  /** The unit vector along `axis`. */
  function Unit(axis: Axis): Vec3 { Along(axis, 1) }

  /** The two in-plane axes of a sweep along `axis`, in the fixed order both
      meshers use: u = (axis + 1) % 3, v = (axis + 2) % 3. */
  function UAxis(axis: Axis): Axis { if axis == 2 then 0 else axis + 1 }

  function VAxis(axis: Axis): Axis { if axis == 0 then 2 else axis - 1 }

  /** UAxis and VAxis are the source's modular expressions, and together with
      the sweep axis they name all three axes. */
  lemma InPlaneAxes(axis: Axis)
    ensures UAxis(axis) == (axis + 1) % 3 && VAxis(axis) == (axis + 2) % 3
    ensures axis != UAxis(axis) && axis != VAxis(axis) && UAxis(axis) != VAxis(axis)
  {
  }

  /** The point whose coordinate along `axis` is `plane` and whose in-plane
      coordinates are `u` and `v` (the meshers' cursor `x[]`). */
  function SliceCoord(axis: Axis, plane: int, u: int, v: int): (p: Vec3)
    ensures p.Get(axis) == plane && p.Get(UAxis(axis)) == u && p.Get(VAxis(axis)) == v
  {
    if axis == 0 then Vec3(plane, u, v) else if axis == 1 then Vec3(v, plane, u) else Vec3(u, v, plane)
  }

  /** An RGBA colour; the model never looks inside one. */
  datatype Color = Rgba(r: real, g: real, b: real, a: real)

  /** A colour given by 8-bit channels, as Godot's `new Color("rrggbb")` parses it. */
  function FromHex(r: int, g: int, b: int): Color {
    Rgba(r as real / 255.0, g as real / 255.0, b as real / 255.0, 1.0)
  }
}
