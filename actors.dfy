/** Render actors, reduced to the six attributes that the on-screen actor and the
    VR actor of a part are meant to share. The attribute values are opaque: the
    tree copies them and never computes with them, so no floating-point arithmetic
    is involved. */
module Actors {

  /** Three components of an attribute: an RGB colour, a position, an orientation
      or a scale. */
  datatype Triple = Triple(x: real, y: real, z: real)

  /** A snapshot of the six shared attributes of an actor. */
  datatype Attributes = Attributes(
    colour: Triple,
    opacity: real,
    position: Triple,
    orientation: Triple,
    scale: Triple,
    visible: bool)

  /** What a newly created VTK actor reports: white, opaque, at the origin,
      unrotated, unit scale, visible. */
  const Defaults := Attributes(Triple(1.0, 1.0, 1.0), 1.0, Triple(0.0, 0.0, 0.0),
                               Triple(0.0, 0.0, 0.0), Triple(1.0, 1.0, 1.0), true)

  /** The colour parts are given when their actor is first set up. */
  const Yellow := Triple(1.0, 1.0, 0.0)

  class Actor {
    var colour: Triple
    var opacity: real
    var position: Triple
    var orientation: Triple
    var scale: Triple
    var visible: bool

    constructor ()
      ensures Attrs() == Defaults
    {
      colour, opacity := Defaults.colour, Defaults.opacity;
      position, orientation, scale := Defaults.position, Defaults.orientation, Defaults.scale;
      visible := Defaults.visible;
    }

    function Attrs(): Attributes
      reads this
    {
      Attributes(colour, opacity, position, orientation, scale, visible)
    }
  }
}
