/** Compile-time settings of the simulation (Fluid/src/settings.hpp). */
module Settings {
  /** Window size in pixels. */
  const WWidth: nat := 1080
  const WHeight: nat := 720

  /** Size of the simulation box. */
  const BoxWidth: nat := 400
  const BoxHeight: nat := 200

  /** The box is centred in the window: its lower-left corner is (BoxMarginX, BoxMarginY). */
  const BoxMarginX: nat := (WWidth - BoxWidth) / 2
  const BoxMarginY: nat := (WHeight - BoxHeight) / 2

  /** Number of particles, fixed for the lifetime of the simulation. */
  const ParticlesNumber: nat := 500

  const Scale: real := 1.0
  /** Side of one grid cell of the spatial index. */
  const Area: real := 16.0
}
