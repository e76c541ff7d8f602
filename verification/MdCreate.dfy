/** `do_md_create`: merging a list of devices with a bitmap of missing ones into mdadm's arguments. */
module MdCreate {
  import opened Seqs
  import opened Decimals

  // ---------- bitmaps

  /** count_bits */
  function CountBits(b: nat): nat { if b == 0 then 0 else (if b % 2 == 1 then 1 else 0) + CountBits(b / 2) }

  function Shift(b: nat, i: nat): nat { if i == 0 then b else Shift(b, i - 1) / 2 }

  predicate Bit(b: nat, k: nat) { Shift(b, k) % 2 == 1 }

  function BitLength(b: nat): nat { if b == 0 then 0 else 1 + BitLength(b / 2) }

  /** Set bits below position i. */
  function Ones(b: nat, i: nat): (n: nat)
    ensures n <= i
  {
    if i == 0 then 0 else Ones(b, i - 1) + if Bit(b, i - 1) then 1 else 0
  }

  lemma {:induction false} CountSplits(b: nat, i: nat)
    ensures CountBits(b) == Ones(b, i) + CountBits(Shift(b, i))
  {
    if i > 0 {
      CountSplits(b, i - 1);
    }
  }

  lemma {:induction false} LengthSplits(b: nat, i: nat)
    ensures BitLength(Shift(b, i)) == if BitLength(b) <= i then 0 else BitLength(b) - i
  {
    if i > 0 {
      LengthSplits(b, i - 1);
    }
  }

  lemma {:induction false} CountAtMostLength(b: nat)
    ensures CountBits(b) <= BitLength(b)
    ensures b > 0 && b % 2 == 0 ==> CountBits(b) < BitLength(b)
  {
    if b > 0 {
      CountAtMostLength(b / 2);
    }
  }

  // ---------- the merge loop

  /** The bitmap can be used up no later than the devices. */
  predicate Fits(devices: seq<string>, b: nat) { BitLength(b) <= |devices| + CountBits(b) }

  /** What stands at position k of the merged list. */
  predicate MergedAt(devices: seq<string>, b: nat, out: seq<string>, k: nat)
    requires k < |out|
  {
    if Bit(b, k) then out[k] == "missing"
    else k - Ones(b, k) < |devices| && out[k] == devices[k - Ones(b, k)]
  }

  predicate Merged(devices: seq<string>, b: nat, out: seq<string>) {
    forall k :: 0 <= k < |out| ==> MergedAt(devices, b, out, k)
  }

  lemma {:induction false} MergedSnoc(devices: seq<string>, b: nat, out: seq<string>, x: string)
    requires Merged(devices, b, out)
    requires if Bit(b, |out|) then x == "missing"
             else |out| - Ones(b, |out|) < |devices| && x == devices[|out| - Ones(b, |out|)]
    ensures Merged(devices, b, out + [x])
  {
    var out' := out + [x];
    forall k | 0 <= k < |out'| ensures MergedAt(devices, b, out', k) {
      if k < |out| {
        assert MergedAt(devices, b, out, k);
      }
    }
  }

  datatype Status = Done | Overrun | Full

  /**
   * "missing" at exactly the set bits and the devices in order elsewhere, with every device
   * and every bit used once.  `room` is what is left of the argument array, the final NULL
   * included: the loop completes iff the bitmap fits the devices and the list fits the room;
   * it runs off the device list only in the first case and aborts in ADD_ARG only in the second.
   */
  method MergeDevices(devices: seq<string>, missing: nat, room: nat) returns (st: Status, out: seq<string>)
    ensures st.Done? <==> Fits(devices, missing) && |devices| + CountBits(missing) < room
    ensures st.Overrun? ==> !Fits(devices, missing)
    ensures st.Full? ==> |devices| + CountBits(missing) >= room
    ensures st.Overrun? ==> |out| < room && |out| == |devices| + Ones(missing, |out|) && !Bit(missing, |out|)
    ensures st.Full? ==> |out| == room && Merged(devices, missing, out)
    ensures st.Done? ==> |out| == |devices| + CountBits(missing) && Merged(devices, missing, out)
  {
    var j, bitmap := 0, missing;
    out := [];
    while j < |devices| || bitmap != 0
      invariant bitmap == Shift(missing, |out|) && |out| <= room
      invariant 0 <= j <= |devices| && j == |out| - Ones(missing, |out|)
      invariant Merged(devices, missing, out)
      decreases bitmap, |devices| - j
    {
      CountSplits(missing, |out|);
      LengthSplits(missing, |out|);
      CountAtMostLength(bitmap);
      if |out| == room {
        return Full, out;
      }
      var arg := "missing";
      if bitmap % 2 == 0 {
        if j == |devices| {
          return Overrun, out;             // the terminating NULL goes into the middle of the arguments
        }
        arg := devices[j];
        j := j + 1;
      }
      MergedSnoc(devices, missing, out, arg);
      out := out + [arg];
      bitmap := bitmap / 2;
    }
    CountSplits(missing, |out|);
    LengthSplits(missing, |out|);
    return if |out| == room then Full else Done, out;
  }

  // ---------- the whole call

  datatype Options = Options(bitmap: bool, spare: bool, nrdevices: bool, level: bool, chunk: bool)

  datatype Result = Refused | RanOffTheEnd | Aborted | Run(argv: seq<string>)

  const LEVELS: set<string> := {"linear", "raid0", "0", "stripe", "raid1", "1", "mirror", "raid4", "4",
                                "raid5", "5", "raid6", "6", "raid10", "10"}

  /** The checks made before any argument is built, the last one on the values after defaulting. */
  predicate Accepted(devices: seq<string>, b: nat, nrdevices: int, spare: int, chunk: int, level: string,
                     opt: Options)
  {
    && (opt.spare ==> spare >= 0)
    && (opt.nrdevices ==> nrdevices >= 2)
    && (opt.level ==> level in LEVELS)
    && (opt.chunk ==> chunk % 1024 == 0)
    && |devices| + CountBits(b) == NrDevices(devices, b, nrdevices, opt) + Spare(spare, opt)
  }

  function NrDevices(devices: seq<string>, b: nat, nrdevices: int, opt: Options): int {
    if opt.nrdevices then nrdevices else |devices| + CountBits(b)
  }

  function Spare(spare: int, opt: Options): int { if opt.spare then spare else 0 }

  /** Arguments before the devices: eight fixed words and two for each of two options. */
  function Fixed(opt: Options): nat { 8 + (if opt.spare then 2 else 0) + if opt.chunk then 2 else 0 }

  /** The number of spares for which the argument array of nrdevices + 16 entries is large enough. */
  function SpareLimit(opt: Options): nat { 15 - Fixed(opt) }

  /** mdadm's words before the devices: each option is followed by its own value. */
  function Leading(name: string, level: string, nr: int, spares: seq<string>, chunk: seq<string>): seq<string> {
    ["mdadm", "--create", "--run", name] + ["--level", level] + ["--raid-devices", PrintInt(nr)] + spares + chunk
  }

  method BuildLeading(name: string, level: string, nr: int, spare: int, chunk: int, opt: Options)
    returns (argv: seq<string>)
    ensures |argv| == Fixed(opt)
    ensures argv == Leading(name, level, nr, if opt.spare then ["--spare-devices", PrintInt(spare)] else [],
                            if opt.chunk then ["--chunk", PrintInt(chunk / 1024)] else [])
  {
    argv := ["mdadm", "--create", "--run", name, "--level", level, "--raid-devices", PrintInt(nr)];
    if opt.spare {
      argv := argv + ["--spare-devices", PrintInt(spare)];
    }
    if opt.chunk {
      argv := argv + ["--chunk", PrintInt(chunk / 1024)];
    }
  }

  /**
   * The call is refused iff a check fails.  An accepted call runs mdadm iff the bitmap fits and
   * there are no more spares than the limit (3 with the chunk option): too many spares abort the
   * daemon, a bitmap that does not fit runs off the device list.  If it runs, the arguments after
   * the fixed ones are the merged list of nrdevices + spare entries.
   */
  method DoMdCreate(name: string, devices: seq<string>, missingbitmap: nat, nrdevices: int, spare: int, chunk: int,
                    level: string, opt: Options)
    returns (r: Result)
    ensures var b := if opt.bitmap then missingbitmap else 0;
            && (r.Refused? <==> !Accepted(devices, b, nrdevices, spare, chunk, level, opt))
            && (!r.Refused? ==> (r.Run? <==> Fits(devices, b) && Spare(spare, opt) <= SpareLimit(opt)))
            && (r.RanOffTheEnd? ==> !Fits(devices, b))
            && (r.Aborted? ==> Spare(spare, opt) > SpareLimit(opt))
    ensures r.Run? ==>
              var b := if opt.bitmap then missingbitmap else 0;
              && |r.argv| == Fixed(opt) + (NrDevices(devices, b, nrdevices, opt) + Spare(spare, opt))
              && Merged(devices, b, r.argv[Fixed(opt)..])
              && r.argv[..Fixed(opt)] == Leading(name, if opt.level then level else "raid1",
                                                 NrDevices(devices, b, nrdevices, opt),
                                                 if opt.spare then ["--spare-devices", PrintInt(spare)] else [],
                                                 if opt.chunk then ["--chunk", PrintInt(chunk / 1024)] else [])
  {
    var b := if opt.bitmap then missingbitmap else 0;
    if opt.spare && spare < 0 {
      return Refused;
    }
    var sp := if opt.spare then spare else 0;
    if opt.nrdevices && nrdevices < 2 {
      return Refused;
    }
    var nr := if opt.nrdevices then nrdevices else |devices| + CountBits(b);
    if opt.level && level !in LEVELS {
      return Refused;
    }
    if opt.chunk && chunk % 1024 != 0 {
      return Refused;
    }
    if |devices| + CountBits(b) != nr + sp {
      return Refused;
    }
    var maxArgs := nr + 16;
    var argv := BuildLeading(name, if opt.level then level else "raid1", nr, spare, chunk, opt);
    var st, merged := MergeDevices(devices, b, maxArgs - |argv|);
    match st {
      case Overrun => return RanOffTheEnd;
      case Full => return Aborted;
      case Done =>
        Drop(argv, merged);
        Take(argv, merged);
        return Run(argv + merged);
    }
  }

  /** Two devices and bit 3: accepted, but the loop needs a third device before it reaches the bit. */
  lemma {:induction false} OverrunExample()
    ensures var devices, b, opt := ["a", "b"], 8, Options(true, false, false, false, false);
            Accepted(devices, b, 0, 0, 0, "", opt) && !Fits(devices, b) && 0 <= SpareLimit(opt)
  {
    assert CountBits(1) == 1 && CountBits(2) == 1 && CountBits(4) == 1 && CountBits(8) == 1;
    assert BitLength(1) == 1 && BitLength(2) == 2 && BitLength(4) == 3 && BitLength(8) == 4;
  }

  /** Two devices and six spares out of eight: accepted, but the argument array is too short. */
  lemma {:induction false} TooManySparesExample()
    ensures var devices := ["a", "b", "c", "d", "e", "f", "g", "h"];
            var opt := Options(false, true, true, false, false);
            Accepted(devices, 0, 2, 6, 0, "", opt) && Fits(devices, 0) && 6 > SpareLimit(opt)
  {
    assert CountBits(0) == 0 && BitLength(0) == 0;
  }
}
