/**
  The pipeline's code over one mutable shared memory.  `Step` executes the next shared access of one
  process in place; each processor has a scratch array of its own for `filter_pixel`.
*/
module Simulator {
  import opened Filter
  import opened Pipeline

  class Sdram {
    ghost const c: Config
    const w: nat
    const h: nat
    const start: nat
    const cast: int -> int
    const image: array<int>
    const outBuf: array<int>
    const softPixels: array<int>
    const hardPixels: array<int>
    // the shared header
    var decryptCount: int
    var decryptDone: bool
    var niosDone: bool
    var hpsDone: bool
    // the static counters and the position of each process
    var softCount: int
    var softPc: SoftPc
    var hardCount: int
    var hardPc: HardPc
    var mainPc: MainPc
    var saved: seq<int>
    ghost var softBatches: nat
    ghost var writes: seq<nat>

    /** The abstract state. */
    ghost function View(): State
      reads this, outBuf
    {
      State(decryptCount, decryptDone, niosDone, hpsDone, softCount, softPc, softBatches, hardCount, hardPc,
            mainPc, saved, outBuf[..], writes)
    }

    /** The memory is laid out as the configuration says; the image is never written. */
    ghost predicate Shaped()
      reads this, image
    {
      && c.Valid() && c.w == w && c.h == h && c.start == start && c.cast == cast
      && image[..] == c.image && outBuf.Length == image.Length == w * h
      && softPixels.Length == hardPixels.Length == 9
      && image != outBuf && softPixels != image && softPixels != outBuf && hardPixels != image && hardPixels != outBuf
    }

    ghost predicate Valid()
      reads this, image, outBuf
    {
      Shaped() && Inv(c, View())
    }

    constructor (w: nat, h: nat, start: nat, pixels: seq<int>, cast: int -> int)
      requires Config(w, h, start, pixels, cast).Valid()
      ensures Valid() && fresh(outBuf) && fresh(softPixels) && fresh(hardPixels)
      ensures c == Config(w, h, start, pixels, cast) && View() == Init(c)
    {
      c := Config(w, h, start, pixels, cast);
      this.w, this.h, this.start, this.cast := w, h, start, cast;
      image := new int[|pixels|](i requires 0 <= i < |pixels| => pixels[i]);
      outBuf := new int[|pixels|](_ => 0);
      softPixels, hardPixels := new int[9](_ => 0), new int[9](_ => 0);
      decryptCount, decryptDone, niosDone, hpsDone := 0, false, false, false;
      softCount, softPc, hardCount, hardPc, mainPc, saved := 0, SoftIdle, 0, HardOff, MainSetup, [];
      softBatches, writes := 0, seq(|pixels|, _ => 0);
      new;
      assert outBuf[..] == seq(|pixels|, _ => 0);
      InitInv(c);
    }

    /** One pixel of `apply_filter`. */
    method FilterInto(i: nat, pixels: array<int>)
      requires Shaped() && i < image.Length && |writes| == image.Length
      requires pixels.Length == 9 && pixels != image && pixels != outBuf
      modifies outBuf, pixels, `writes
      ensures Shaped()
      ensures outBuf[..] == old(outBuf[..])[i := c.Full()[i]]
      ensures writes == old(writes)[i := old(writes)[i] + 1]
    {
      outBuf[i] := FilterPixel(image, i, w, h, pixels, cast);
      writes := writes[i := writes[i] + 1];
    }

    /** A pixel a processor is about to write lies in the output. */
    ghost predicate WritesInside(next: int, stop: int)
      reads this
    {
      |writes| == |c.image| && 0 <= next && (next < stop ==> next < |c.image|)
    }

    /** The end of a soft pass: the count, and the flag when the region is finished. */
    method SoftCommit(stop: int)
      requires Shaped() && softPc.SoftWrite? && softPc.stop == stop <= softPc.next
      modifies this
      ensures Shaped() && View() == SoftNext(c, old(View()))
    {
      softBatches := if stop > softCount then softBatches + 1 else softBatches;
      softCount := stop;
      if softCount == start {
        niosDone := true;
        softPc := SoftExit;
      } else {
        softPc := SoftIdle;
      }
    }

    /** The end of a hard pass. */
    method HardCommit(stop: int)
      requires Shaped() && hardPc.HardWrite? && hardPc.stop == stop <= hardPc.next
      modifies this
      ensures Shaped() && View() == HardNext(c, old(View()))
    {
      hardCount := stop - start;
      if start + hardCount == w * h {
        hpsDone := true;
        hardPc := HardExit;
      } else {
        hardPc := HardGate;
      }
    }

    method SoftStep()
      requires Shaped() && (softPc.SoftWrite? ==> WritesInside(softPc.next, softPc.stop))
      modifies this, outBuf, softPixels
      ensures Shaped() && View() == SoftNext(c, old(View()))
    {
      match softPc {
        case SoftIdle =>
          var num := 0;
          var unfiltered := decryptCount - softCount;
          if softCount + unfiltered > start {
            unfiltered := start - softCount;
          }
          if unfiltered > 2 * w || unfiltered == start - softCount {
            num := unfiltered;
          }
          softPc := SoftWrite(softCount, softCount + num);
        case SoftWrite(next, stop) =>
          if next < stop {
            FilterInto(next, softPixels);
            softPc := SoftWrite(next + 1, stop);
          } else {
            SoftCommit(stop);
          }
        case SoftExit =>
      }
    }

    method HardStep()
      requires Shaped() && (hardPc.HardWrite? ==> WritesInside(hardPc.next, hardPc.stop))
      modifies this, outBuf, hardPixels
      ensures Shaped() && View() == HardNext(c, old(View()))
    {
      match hardPc {
        case HardOff =>
        case HardGate =>
          if decryptCount >= start {
            hardPc := HardRead;
          }
        case HardRead =>
          var unfiltered := decryptCount - start - hardCount;
          if unfiltered < 0 {
            unfiltered := 0;
          }
          hardPc := HardDecide(unfiltered);
        case HardDecide(unfiltered) =>
          var num := 0;
          if unfiltered > 2 * w || decryptDone {
            num := unfiltered;
          }
          hardPc := HardWrite(start + hardCount, start + hardCount + num);
        case HardWrite(next, stop) =>
          if next < stop {
            FilterInto(next, hardPixels);
            hardPc := HardWrite(next + 1, stop);
          } else {
            HardCommit(stop);
          }
        case HardExit =>
      }
    }

    method MainStep()
      requires Shaped()
      modifies this
      ensures Shaped() && View() == MainNext(c, old(View()))
    {
      match mainPc {
        case MainSetup =>
          if start < w * h {
            hardPc := HardGate;
          } else {
            hpsDone := true;
          }
          mainPc := MainDecrypt;
        case MainDecrypt =>
          if decryptCount != w * h {
            decryptCount := decryptCount + 1;
          } else {
            decryptDone := true;
            mainPc := MainWait;
          }
        case MainWait =>
          if niosDone && hpsDone {
            saved := outBuf[..];
            mainPc := MainSaved;
          }
        case MainSaved =>
      }
    }

    /** The next shared access of process `p`. */
    method Step(p: Process)
      requires Valid()
      modifies this, outBuf, softPixels, hardPixels
      ensures Valid() && View() == Next(c, old(View()), p)
    {
      NextKeeps(c, View(), p);
      match p {
        case Main => MainStep();
        case Soft => SoftStep();
        case Hard => HardStep();
      }
    }

    /** Executes an arbitrary interleaving. */
    method Execute(schedule: seq<Process>)
      requires Valid()
      modifies this, outBuf, softPixels, hardPixels
      ensures Valid() && View() == Run(c, old(View()), schedule)
    {
      ghost var s0 := View();
      for i := 0 to |schedule|
        invariant Valid() && Run(c, View(), schedule[i..]) == Run(c, s0, schedule)
      {
        Step(schedule[i]);
        assert schedule[i..][1..] == schedule[i + 1..];
      }
    }
  }
}
