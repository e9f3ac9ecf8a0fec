/**
 * The two GPIO output pins of JePiAlert. Both are active low: a pin driven
 * low switches its lamp on. `pin` (GPIO_00, "Alert1") shows failing jobs,
 * `pin2` (GPIO_01, "Alert2") shows running builds. The GPIO driver itself is
 * not part of this model; the controller's shutdown is a flag.
 */
module Outputs {

  class Pins {
    /** `pin` is high (failure lamp off). */
    var pinHigh: bool
    /** `pin2` is high (building lamp off). */
    var pin2High: bool
    /** `gpioController.shutdown()` has been called. */
    var controllerShutDown: bool

    /** The failure lamp is on. */
    predicate AlertOn()
      reads this
    {
      !pinHigh
    }

    /** The building lamp is on. */
    predicate BuildingOn()
      reads this
    {
      !pin2High
    }

    /** Both lamps are off. */
    predicate Safe()
      reads this
    {
      pinHigh && pin2High
    }

    /** provisionDigitalOutputPin(..., PinState.HIGH) for both pins. */
    constructor Provision()
      ensures Safe() && !controllerShutDown
    {
      pinHigh, pin2High := true, true;
      controllerShutDown := false;
    }

    /** The end of a cycle: both pins are written, whatever they were. */
    method Drive(hasErrors: bool, isBuilding: bool)
      modifies this
      ensures AlertOn() == hasErrors && BuildingOn() == isBuilding
      ensures controllerShutDown == old(controllerShutDown)
    {
      if hasErrors {
        pinHigh := false;
      } else {
        pinHigh := true;
      }
      if isBuilding {
        pin2High := false;
      } else {
        pin2High := true;
      }
    }

    /** The catch block of the session loop: `pin.high(); pin2.high();`. */
    method ForceSafe()
      modifies this
      ensures Safe()
      ensures controllerShutDown == old(controllerShutDown)
    {
      pinHigh := true;
      pin2High := true;
    }

    /** `shutDown`: both pins high, then the controller is shut down. */
    method ShutDown()
      modifies this
      ensures Safe() && controllerShutDown
    {
      pinHigh := true;
      pin2High := true;
      controllerShutDown := true;
    }
  }
}
