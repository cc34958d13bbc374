// The frequency-locked loops, kernel/fll-v1.c.
module Fll {
  import opened FllMath
  import opened Arithmetic

  /**
   * One loop for each index; `mult` and `div` are the fields of its configuration register, and `mode` tells whether
   * it is locked.
   */
  class Flls {
    const freqs: array<nat>
    const isOn: array<bool>
    const mult: array<nat>
    const div: array<nat>
    const mode: array<bool>

    ghost predicate Valid()
      reads this
    {
      && freqs.Length == isOn.Length == mult.Length == div.Length == mode.Length
      && freqs != mult && freqs != div && mult != div && isOn != mode
    }

    /** The recorded frequency is that of the hardware. */
    ghost predicate Agrees(fll: nat)
      requires Valid() && fll < freqs.Length
      reads this, freqs, mult, div
    {
      0 < div[fll] && freqs[fll] == FreqOf(mult[fll], div[fll])
    }

    /** As at reset: nothing recorded, and the hardware registers as they are. */
    constructor (mult: array<nat>, div: array<nat>, mode: array<bool>)
      requires mult.Length == div.Length == mode.Length && mult != div
      ensures Valid() && this.mult == mult && this.div == div && this.mode == mode
      ensures fresh(freqs) && fresh(isOn)
      ensures forall i :: 0 <= i < freqs.Length ==> freqs[i] == 0 && !isOn[i]
    {
      freqs := new nat[mult.Length](_ => 0);
      isOn := new bool[mult.Length](_ => false);
      this.mult := mult;
      this.div := div;
      this.mode := mode;
    }

    /** `pos_fll_get_mult_div_from_freq`, in unsigned 32-bit arithmetic: nothing overflows and the fields fit. */
    static method MultDivFromFreq(freq: nat) returns (fres: nat, m: nat, d: nat)
      requires 0 < freq < 0x4000_0000
      ensures m == Mult(freq) && m < 0x1_0000 && d == Shift(freq) + 1 && 2 <= d < 16
      ensures fres == RealFreq(freq) == FreqOf(m, d)
      ensures fres <= freq < fres + Pow2(16 - d) && (freq - fres) * (freq - fres) < 4 * freq
      ensures if freq < 0x1000_0000 then freq * Pow2(2 * d - 2) < 0x4000_0000 <= freq * Pow2(2 * d) else d == 2
    {
      hide Pow2, Shift, Log2;
      ShiftFitsIff(freq);
      MultFits(freq);
      ErrorBound(freq);
      ErrorBelowRoot(freq);
      ShiftChoice(freq);
      var shift := Shift(freq);
      ResultIsExact(Mult(freq), shift);
      RoundingFits(freq);
      m := Div(U32(freq * Pow2(shift)), REF_CLOCK);
      fres := Div(U32(U32(REF_CLOCK * m) + Pow2(shift - 1)), Pow2(shift));
      d := shift + 1;
    }

    /** `pos_fll_get_freq_from_mult_div`. */
    static method FreqFromMultDiv(m: nat, d: nat) returns (freq: nat)
      requires m < 0x1_0000 && 0 < d < 16
      ensures freq == FreqOf(m, d)
    {
      freq := Div(U32(REF_CLOCK * m), Pow2(d - 1));
    }

    /** Records the frequency that results, and sets the hardware to it if the loop is on. */
    method SetFreq(fll: nat, frequency: nat) returns (fres: nat)
      requires Valid() && fll < freqs.Length && 0 < frequency < 0x4000_0000
      modifies freqs, mult, div
      ensures fres == RealFreq(frequency) && freqs[..] == old(freqs[..])[fll := fres]
      ensures mult[..] == if isOn[fll] then old(mult[..])[fll := Mult(frequency)] else old(mult[..])
      ensures div[..] == if isOn[fll] then old(div[..])[fll := Shift(frequency) + 1] else old(div[..])
      ensures isOn[fll] ==> Agrees(fll)
    {
      hide Mult, Shift, RealFreq, FreqOf;
      var m, d;
      fres, m, d := MultDivFromFreq(frequency);
      freqs[fll] := fres;
      if isOn[fll] {
        mult[fll], div[fll] := m, d;
      }
    }

    /**
     * Switches a loop on. A frequency recorded while the loop was off is set only if the loop is already on: the
     * record agrees with the hardware afterwards exactly if it was on, if nothing was recorded, or if the hardware
     * happens to have what the recorded frequency gives. The divider field is 1 at reset and at least 2 once set.
     */
    method Init(fll: nat) returns (freq: nat)
      requires Valid() && fll < freqs.Length && freqs[fll] < 0x4000_0000 && mult[fll] < 0x1_0000 && 0 < div[fll] < 16
      modifies freqs, isOn, mult, div, mode
      ensures isOn[..] == old(isOn[..])[fll := true] && mode[..] == old(mode[..])[fll := true]
      ensures var f := old(freqs[fll]);
              && freq == (if f == 0 then freqs[fll] else f)
              && freqs[..] == old(freqs[..])[fll := if f == 0 then FreqOf(old(mult[fll]), old(div[fll])) else RealFreq(f)]
              && mult[..] == (if old(isOn[fll]) && f != 0 then old(mult[..])[fll := Mult(f)] else old(mult[..]))
              && div[..] == (if old(isOn[fll]) && f != 0 then old(div[..])[fll := Shift(f) + 1] else old(div[..]))
      ensures Agrees(fll) <==>
              old(isOn[fll]) || old(freqs[fll]) == 0 || RealFreq(old(freqs[fll])) == FreqOf(old(mult[fll]), old(div[fll]))
    {
      hide Mult, Shift, RealFreq, FreqOf;
      var m, d := mult[fll], div[fll];
      if !mode[fll] {
        mode[fll] := true;
      }
      freq := freqs[fll];
      if freq != 0 {
        var _ := SetFreq(fll, freq);
      } else {
        freq := FreqFromMultDiv(m, d);
        freqs[fll] := freq;
      }
      isOn[fll] := true;
    }

    /** Switches a loop off; whether its record agrees with the hardware stays as it was, for this loop and every other. */
    method Deinit(fll: nat)
      requires Valid() && fll < freqs.Length
      modifies isOn
      ensures isOn[..] == old(isOn[..])[fll := false]
      ensures forall i :: 0 <= i < freqs.Length ==> (Agrees(i) <==> old(Agrees(i)))
    {
      isOn[fll] := false;
    }
  }

  lemma RoundingFits(freq: nat)
    requires 0 < freq < 0x4000_0000
    ensures 1 <= Shift(freq) <= 14 && REF_CLOCK * Mult(freq) + Pow2(Shift(freq) - 1) < 0x1_0000_0000
  {
    hide Pow2, Shift, Log2, Mult;
    ShiftFitsIff(freq);
    MultFits(freq);
    Pow2Values();
    Pow2Monotone(Shift(freq) - 1, 15);
  }
}
