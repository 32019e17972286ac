/** The LED manager object: the two mode flags, the animation counter, the
    time of the last frame and the strip's pixel buffer, all updated in place.
    Each method is proved to move the object's state exactly as the matching
    function of `LedModel` says, and to keep `LedModel.Inv`. */
module NeoPixel {
  import opened Platform
  import opened LedModel

  class NeoPixelManager {
    /** The strip's pixel buffer, `LED_COUNT` long. */
    var pixels: array<Color>
    var lastRainbowUpdate: u32
    var rainbowStep: nat
    var rainbowMode: bool
    var enabled: bool

    ghost function State(): LedState
      reads this, pixels
      requires pixels.Length == LED_COUNT
    {
      LedState(rainbowMode, enabled, rainbowStep, lastRainbowUpdate, pixels[0])
    }

    ghost predicate Valid()
      reads this, pixels
    {
      pixels.Length == LED_COUNT && Inv(State())
    }

    /** The constructor: rainbow mode on, enabled, step 0, no frame drawn yet,
        and a blank pixel buffer. */
    constructor ()
      ensures Valid() && fresh(pixels)
      ensures State() == Initial()
    {
      pixels := new Color[LED_COUNT](_ => BLACK);
      lastRainbowUpdate := 0;
      rainbowStep := 0;
      rainbowMode := true;
      enabled := true;
    }

    /** `update`, called with the clock reading `now`; `shownAt` is the clock
        read again after the frame has been shown. */
    method Update(now: u32, shownAt: u32)
      requires Valid()
      modifies this, pixels
      ensures Valid() && pixels == old(pixels)
      ensures State() == LedModel.Update(old(State()), now, shownAt)
    {
      if !enabled {
        return;
      }
      if rainbowMode {
        if Elapsed(now, lastRainbowUpdate) >= RAINBOW_INTERVAL {
          var color := Hue((rainbowStep * 256) % 0x1_0000);
          pixels[0] := color;
          rainbowStep := (rainbowStep + 1) % RAINBOW_STEPS;
          lastRainbowUpdate := shownAt;
        }
      }
    }

    method SetColor(red: u8, green: u8, blue: u8)
      requires Valid()
      modifies this, pixels
      ensures Valid() && pixels == old(pixels)
      ensures State() == LedModel.SetColor(old(State()), red, green, blue)
    {
      rainbowMode := false;
      enabled := true;
      pixels[0] := Rgb(red, green, blue);
    }

    method SetRainbowMode(enable: bool)
      requires Valid()
      modifies this
      ensures Valid() && pixels == old(pixels)
      ensures State() == LedModel.SetRainbowMode(old(State()), enable)
    {
      rainbowMode := enable;
      if enable {
        enabled := true;
      }
    }

    method SetEnabled(enable: bool)
      requires Valid()
      modifies this, pixels
      ensures Valid() && pixels == old(pixels)
      ensures State() == LedModel.SetEnabled(old(State()), enable)
    {
      enabled := enable;
      if !enable {
        rainbowMode := false;
        pixels[0] := BLACK;
      }
    }

    /** `flashColor`; the blocking `delay(duration)` between showing the flash
        and restoring the mode is not modelled, so `duration` has no effect. */
    method FlashColor(red: u8, green: u8, blue: u8, duration: int)
      requires Valid()
      modifies this, pixels
      ensures Valid() && pixels == old(pixels)
      ensures State() == LedModel.FlashColor(old(State()), red, green, blue)
    {
      var wasRainbow := rainbowMode;
      rainbowMode := false;
      pixels[0] := Rgb(red, green, blue);
      if wasRainbow {
        rainbowMode := true;
      }
    }

    /** `isEnabled`: true whenever rainbow mode is on. */
    function IsEnabled(): (r: bool)
      reads this, pixels
      requires Valid()
      ensures r == enabled
      ensures rainbowMode ==> r
    {
      enabled
    }

    /** `isRainbowMode`: never true on a disabled LED. */
    function IsRainbowMode(): (r: bool)
      reads this, pixels
      requires Valid()
      ensures r == rainbowMode
      ensures r ==> enabled
    {
      rainbowMode
    }

    method SetRed()
      requires Valid()
      modifies this, pixels
      ensures Valid() && pixels == old(pixels)
      ensures State() == LedModel.SetColor(old(State()), 255, 0, 0)
    {
      SetColor(255, 0, 0);
    }

    method SetGreen()
      requires Valid()
      modifies this, pixels
      ensures Valid() && pixels == old(pixels)
      ensures State() == LedModel.SetColor(old(State()), 0, 255, 0)
    {
      SetColor(0, 255, 0);
    }

    method SetBlue()
      requires Valid()
      modifies this, pixels
      ensures Valid() && pixels == old(pixels)
      ensures State() == LedModel.SetColor(old(State()), 0, 0, 255)
    {
      SetColor(0, 0, 255);
    }

    method SetWhite()
      requires Valid()
      modifies this, pixels
      ensures Valid() && pixels == old(pixels)
      ensures State() == LedModel.SetColor(old(State()), 255, 255, 255)
    {
      SetColor(255, 255, 255);
    }

    method TurnOff()
      requires Valid()
      modifies this, pixels
      ensures Valid() && pixels == old(pixels)
      ensures State() == LedModel.SetEnabled(old(State()), false)
    {
      SetEnabled(false);
    }
  }
}
