/**
 * The site-uptime widget (general/updata.js): splitting the elapsed time into
 * days, hours, minutes and seconds, and choosing where to put the widget.
 * The clock and the DOM writes are left out: the elapsed time is an input.
 */
module Uptime {
  import opened Common

  /** The four numbers the widget displays. */
  datatype UptimeDisplay = UptimeDisplay(days: int, hours: int, minutes: int, seconds: int)

  /**
   * What the widget shows when `diff` milliseconds have passed since launch.
   * Dafny's `/` on int with a positive divisor rounds down, as `Math.floor(x / k)` does.
   */
  function Uptime(diff: int): (r: UptimeDisplay)
    ensures diff < 0 ==> r == UptimeDisplay(0, 0, 0, 0)
    ensures diff >= 0 ==> 0 <= r.days && 0 <= r.hours < 24 && 0 <= r.minutes < 60 && 0 <= r.seconds < 60
    ensures diff >= 0 ==> r.days * 86400 + r.hours * 3600 + r.minutes * 60 + r.seconds == diff / 1000
  {
    if diff < 0 then UptimeDisplay(0, 0, 0, 0)
    else
      var seconds := diff / 1000;
      var minutes := seconds / 60;
      var hours := minutes / 60;
      var days := hours / 24;
      assert seconds == minutes * 60 + seconds % 60;
      assert minutes == hours * 60 + minutes % 60;
      assert hours == days * 24 + hours % 24;
      UptimeDisplay(days, hours % 24, minutes % 60, seconds % 60)
  }

  /** The displayed day count never goes down as time passes. */
  lemma DaysNonDecreasing(diff1: int, diff2: int)
    requires diff1 <= diff2
    ensures Uptime(diff1).days <= Uptime(diff2).days
  {
    if diff1 >= 0 {
      assert diff1 / 1000 <= diff2 / 1000;
      assert diff1 / 1000 / 60 <= diff2 / 1000 / 60;
      assert diff1 / 1000 / 60 / 60 <= diff2 / 1000 / 60 / 60;
    }
  }

  /**
   * The container the widget is appended to: the first candidate that exists,
   * in the order `.container.dashboard`, `.container.main`, `.container`,
   * `.dashboard-body`, `main`, `footer`; `body` when none does.
   */
  function ChooseContainer(found: seq<Option<NodeId>>, body: NodeId): (r: NodeId)
    ensures (forall i :: 0 <= i < |found| ==> found[i].None?) ==> r == body
    ensures (exists i :: 0 <= i < |found| && found[i].Some?) ==>
              exists i :: 0 <= i < |found| && found[i] == Some(r) && forall k :: 0 <= k < i ==> found[k].None?
  {
    if found == [] then body
    else if found[0].Some? then found[0].value
    else
      var r := ChooseContainer(found[1..], body);
      assert forall i :: 1 <= i < |found| ==> found[i] == found[1..][i - 1];
      if exists i :: 0 <= i < |found| && found[i].Some? then
        var i :| 0 <= i < |found[1..]| && found[1..][i] == Some(r) && forall k :: 0 <= k < i ==> found[1..][k].None?;
        assert found[i + 1] == Some(r);
        r
      else r
  }
}
