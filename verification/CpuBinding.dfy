/** Which CPU an exerciser belongs to: create_eq_mdt appends the CPU number to the device name and
    the equaliser collects the digits of the name again. */
module CpuBinding {
  import opened Seqs
  import opened CText

  /** Every digit of the name, read as one number. */
  function CpuNumber(dev: string): (n: nat) {
    if dev == "" then 0 else
    var init, c := dev[..|dev| - 1], dev[|dev| - 1];
    if IsDigit(c) then 10 * CpuNumber(init) + Digit(c) else CpuNumber(init)
  }

  method BindCpuNumber(dev: string) returns (n: nat)
    ensures n == CpuNumber(dev)
  {
    n := 0;
    for i := 0 to |dev|
      invariant n == CpuNumber(dev[..i])
    {
      assert dev[..i + 1][..i] == dev[..i];
      if IsDigit(dev[i]) {
        n := 10 * n + Digit(dev[i]);
      }
    }
    assert dev[..|dev|] == dev;
  }

  /** create_dev_stanza's device name. */
  function DeviceName(kind: string, cpu: nat): (dev: string) {
    kind + Decimal(cpu)
  }

  lemma {:induction false} CpuNumberOfSuffix(kind: string, digits: string)
    requires AllDigits(digits)
    ensures CpuNumber(kind) == 0 ==> CpuNumber(kind + digits) == Number(digits)
    ensures CpuNumber(kind) > 0 ==> CpuNumber(kind + digits) > Number(digits)
  {
    var dev := kind + digits;
    if digits == "" {
      assert dev == kind;
    } else {
      assert dev[..|dev| - 1] == kind + digits[..|digits| - 1];
      CpuNumberOfSuffix(kind, digits[..|digits| - 1]);
    }
  }

  predicate HasNonzeroDigit(kind: string) {
    exists i :: 0 <= i < |kind| && '1' <= kind[i] <= '9'
  }

  lemma {:induction false} CpuNumberIsZero(kind: string)
    ensures CpuNumber(kind) == 0 <==> !HasNonzeroDigit(kind)
  {
    if kind != "" {
      var init := kind[..|kind| - 1];
      CpuNumberIsZero(init);
      assert kind[|kind| - 1] == '0' || !('0' <= kind[|kind| - 1] <= '9') ==>
        (HasNonzeroDigit(init) <==> HasNonzeroDigit(kind)) by {
        if HasNonzeroDigit(init) {
          var i :| 0 <= i < |init| && '1' <= init[i] <= '9';
          assert kind[i] == init[i];
        }
      }
    }
  }

  /** The CPU number survives the trip through the device name exactly for those kinds of device
      whose own name has no digit other than 0. */
  lemma CpuNumberRoundTrip(kind: string, cpu: nat)
    ensures CpuNumber(DeviceName(kind, cpu)) == cpu <==> !HasNonzeroDigit(kind)
  {
    CpuNumberOfSuffix(kind, Decimal(cpu));
    NumberOfDecimal(cpu);
    CpuNumberIsZero(kind);
  }

  /** map_array of create_eq_mdt; a device of any other name ends the program. */
  const KINDS: seq<string> :=
    ["mem", "fpu", "cpu", "sctu", "cache", "tdp", "rdp", "adds", "divds", "fdaxpy", "mdaxpy", "ddot", "pv"]

  predicate Supported(name: string) {
    exists j :: 0 <= j < |KINDS| && EqualIgnoringCase(KINDS[j], name)
  }

  predicate Letters(s: string) {
    forall i :: 0 <= i < |s| ==> 'a' <= s[i] <= 'z'
  }

  lemma KindsAreLetters(j: nat)
    requires j < |KINDS|
    ensures Letters(KINDS[j])
  {
    assert Letters("mem") && Letters("fpu") && Letters("cpu") && Letters("sctu") && Letters("cache");
    assert Letters("tdp") && Letters("rdp") && Letters("adds") && Letters("divds") && Letters("fdaxpy");
    assert Letters("mdaxpy") && Letters("ddot") && Letters("pv");
  }

  /** A supported name, in capitals or not, has no digit of its own, so the CPU number survives. */
  lemma SupportedKeepsNumber(name: string, cpu: nat)
    requires Supported(name)
    ensures CpuNumber(DeviceName(name, cpu)) == cpu
  {
    var j :| 0 <= j < |KINDS| && EqualIgnoringCase(KINDS[j], name);
    KindsAreLetters(j);
    forall i | 0 <= i < |name| ensures !('1' <= name[i] <= '9') {
      assert Lower(KINDS[j][i]) == Lower(name[i]);
    }
    CpuNumberRoundTrip(name, cpu);
  }

  /** create_dev_stanza's name for a device on one CPU.  On POWER9 and later, mem devices are
      numbered one after the other instead. */
  function StanzaName(power9: bool, name: string, memInstance: nat, cpu: nat): (dev: string) {
    if power9 && EqualIgnoringCase(name, "mem") then DeviceName(name, memInstance) else DeviceName(name, cpu)
  }

  /** Every device that create_eq_mdt writes is bound to its own CPU, except for the numbered mem
      devices, which are bound to the CPU whose number happens to be theirs. */
  lemma StanzaBindsItsCpuIff(power9: bool, name: string, memInstance: nat, cpu: nat)
    requires Supported(name)
    ensures CpuNumber(StanzaName(power9, name, memInstance, cpu)) == cpu
       <==> (power9 && EqualIgnoringCase(name, "mem") ==> memInstance == cpu)
  {
    SupportedKeepsNumber(name, memInstance);
    SupportedKeepsNumber(name, cpu);
  }

  /** The devices recorded on one CPU, in device order. */
  function BoundTo(devs: seq<string>, cpu: int): (ks: seq<nat>) {
    if devs == [] then [] else
    var k := |devs| - 1;
    BoundTo(devs[..k], cpu) + if CpuNumber(devs[k]) == cpu then [k] else []
  }

  /** A device is recorded on a CPU exactly when its name carries that CPU's number, and once. */
  lemma {:induction false} BoundToMeaning(devs: seq<string>, cpu: int)
    ensures forall k: nat :: k in BoundTo(devs, cpu) <==> k < |devs| && CpuNumber(devs[k]) == cpu
    ensures forall i, j :: 0 <= i < j < |BoundTo(devs, cpu)| ==> BoundTo(devs, cpu)[i] < BoundTo(devs, cpu)[j]
  {
    if devs != [] {
      var k := |devs| - 1;
      BoundToMeaning(devs[..k], cpu);
      forall j | 0 <= j < |BoundTo(devs[..k], cpu)| ensures BoundTo(devs[..k], cpu)[j] < k {
        assert BoundTo(devs[..k], cpu)[j] in BoundTo(devs[..k], cpu);
      }
    }
  }

  /** With distinct logical CPU numbers no exerciser is recorded twice, on one CPU or on two. */
  lemma RecordedOnce(devs: seq<string>, lcpu: seq<int>, c: nat, i: nat, d: nat, j: nat)
    requires Distinct(lcpu) && c < |lcpu| && d < |lcpu|
    requires i < |BoundTo(devs, lcpu[c])| && j < |BoundTo(devs, lcpu[d])|
    requires BoundTo(devs, lcpu[c])[i] == BoundTo(devs, lcpu[d])[j]
    ensures c == d && i == j
  {
    BoundToMeaning(devs, lcpu[c]);
    BoundToMeaning(devs, lcpu[d]);
    assert BoundTo(devs, lcpu[c])[i] in BoundTo(devs, lcpu[c]);
    assert BoundTo(devs, lcpu[d])[j] in BoundTo(devs, lcpu[d]);
  }
}
