/**
 * The `converter` package: the timestamp builder used by the earlier stream
 * reader, a copy of `convert.MakeTimeStamp`.
 */
module Converter {
  import opened Strings
  import Convert

  /**
   * `MakeTimeStamp`: the date with every '/' turned into '-' and otherwise
   * untouched, one space, and the time without one trailing ".000".
   */
  function MakeTimeStamp(date: string, time: string): (r: string)
    ensures |r| == |date| + 1 + |time| - (if HasSuffix(time, ".000") then 4 else 0)
    ensures forall i :: 0 <= i < |date| ==> r[i] == (if date[i] == '/' then '-' else date[i])
    ensures r[|date|] == ' '
    ensures HasSuffix(time, ".000") ==> r[|date| + 1..] + ".000" == time
    ensures !HasSuffix(time, ".000") ==> r[|date| + 1..] == time
  {
    var d := ReplaceAll(date, "/"[0], "-"[0]);
    var t := TrimSuffix(time, ".000");
    assert HasSuffix(time, ".000") ==> t + ".000" == time;
    d + " " + t
  }

  /** The two copies of the timestamp builder agree on every input. */
  lemma MakeTimeStampAgrees(date: string, time: string)
    ensures MakeTimeStamp(date, time) == Convert.MakeTimeStamp(date, time)
  {
    var a, b := MakeTimeStamp(date, time), Convert.MakeTimeStamp(date, time);
    assert |a| == |b|;
    forall i | 0 <= i < |a| ensures a[i] == b[i] {
      if i > |date| {
        assert a[i] == a[|date| + 1..][i - |date| - 1];
        assert b[i] == b[|date| + 1..][i - |date| - 1];
      }
    }
  }
}
