/** Arduino platform types shared by the command table, the LED manager and the
    message client: fixed-width unsigned integers, an optional value, and the
    wrap-around arithmetic of `millis()` timestamps. */
module Platform {

  /** `uint8_t`: a colour channel. */
  type u8 = x: int | 0 <= x < 0x100

  /** `uint16_t`: the hue argument of the strip's HSV conversion. */
  type u16 = x: int | 0 <= x < 0x1_0000

  /** `unsigned long` on the ESP32 is 32 bits wide; `millis()` returns one. */
  const U32_MODULUS: int := 0x1_0000_0000
  type u32 = x: int | 0 <= x < 0x1_0000_0000

  datatype Option<T> = None | Some(value: T)

  /** `now - since` evaluated in `unsigned long`: the subtraction wraps modulo 2^32,
      so the result is the time elapsed since `since` even across a rollover of
      the millisecond counter. */
  function Elapsed(now: u32, since: u32): (d: u32)
    ensures now >= since ==> d == now - since
    ensures now < since ==> d == now + U32_MODULUS - since
    ensures (since + d) % U32_MODULUS == now
  {
    (now - since) % U32_MODULUS
  }

  /** A timestamp taken `d` milliseconds after `since` (the counter having possibly
      wrapped in between) is measured as exactly `d` milliseconds later. */
  lemma ElapsedAfter(since: u32, d: u32)
    ensures Elapsed((since + d) % U32_MODULUS, since) == d
  {
    var now := (since + d) % U32_MODULUS;
    if since + d < U32_MODULUS {
      assert now == since + d;
    } else {
      assert now == since + d - U32_MODULUS;
    }
  }
}
