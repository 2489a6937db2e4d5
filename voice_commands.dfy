/**
 * The command dispatch of the voice loop (voicerec.py, `listen_for_commands`):
 * a recognised, lower-cased phrase is sorted into one kind of command by the
 * first group of key phrases it contains, checked in a fixed order.
 */
module VoiceCommands {

  /** Python's `sub in s` on strings, by scanning. */
  predicate Contains(s: string, sub: string)
    decreases |s|
  {
    sub <= s || (|s| > 0 && Contains(s[1..], sub))
  }

  /** `sub` occurs in `s` starting at position `i`. */
  predicate OccursAt(sub: string, s: string, i: int) {
    0 <= i <= |s| - |sub| && s[i..i + |sub|] == sub
  }

  /** `sub` occurs in `s` at some position. */
  ghost predicate OccursIn(sub: string, s: string) {
    exists i :: OccursAt(sub, s, i)
  }

  /** The scan finds `sub` exactly when it occurs at some position. */
  lemma {:induction false} ContainsIffOccurs(s: string, sub: string)
    ensures Contains(s, sub) <==> OccursIn(sub, s)
    decreases |s|
  {
    if sub <= s {
      assert OccursAt(sub, s, 0);
    } else if |s| > 0 {
      ContainsIffOccurs(s[1..], sub);
      forall i | OccursAt(sub, s[1..], i) ensures OccursAt(sub, s, i + 1) {
        assert s[i + 1..i + 1 + |sub|] == s[1..][i..i + |sub|];
      }
      forall i | OccursAt(sub, s, i) ensures OccursAt(sub, s[1..], i - 1) {
        assert i != 0 by { assert s[..|sub|] != sub; }
        assert s[1..][i - 1..i - 1 + |sub|] == s[i..i + |sub|];
      }
    } else {
      assert |sub| > 0;
    }
  }

  /** A phrase with a letter that the command lacks is not in the command. */
  lemma {:induction false} MissingLetterNotContained(s: string, sub: string, c: char)
    requires c in sub && c !in s
    ensures !Contains(s, sub)
    decreases |s|
  {
    var k :| 0 <= k < |sub| && sub[k] == c;
    if |sub| <= |s| {
      assert s[..|sub|][k] != sub[k];
    }
    if |s| > 0 {
      MissingLetterNotContained(s[1..], sub, c);
    }
  }

  datatype CommandKind = SetAlarm | CancelAlarm | ListAlarms | Help | Unrecognised

  predicate AsksToSet(cmd: string) {
    Contains(cmd, "set the alarm") || Contains(cmd, "set an alarm") || Contains(cmd, "set alarm")
  }

  predicate AsksToCancel(cmd: string) {
    Contains(cmd, "cancel alarm") || Contains(cmd, "delete alarm")
  }

  predicate AsksToList(cmd: string) {
    Contains(cmd, "list alarms") || Contains(cmd, "show alarms")
  }

  predicate AsksForHelp(cmd: string) {
    Contains(cmd, "help")
  }

  /**
   * The `if`/`elif` chain of the voice loop: set, then cancel, then list, then
   * help, else unrecognised. Each kind is chosen exactly when its phrases
   * occur and those of every earlier kind do not.
   */
  function Classify(cmd: string): (k: CommandKind)
    ensures k == SetAlarm <==> AsksToSet(cmd)
    ensures k == CancelAlarm <==> !AsksToSet(cmd) && AsksToCancel(cmd)
    ensures k == ListAlarms <==> !AsksToSet(cmd) && !AsksToCancel(cmd) && AsksToList(cmd)
    ensures k == Help <==> !AsksToSet(cmd) && !AsksToCancel(cmd) && !AsksToList(cmd) && AsksForHelp(cmd)
    ensures k == Unrecognised <==> !AsksToSet(cmd) && !AsksToCancel(cmd) && !AsksToList(cmd) && !AsksForHelp(cmd)
  {
    if AsksToSet(cmd) then SetAlarm
    else if AsksToCancel(cmd) then CancelAlarm
    else if AsksToList(cmd) then ListAlarms
    else if AsksForHelp(cmd) then Help
    else Unrecognised
  }

  /** A phrase naming both cancelling and setting is a set command. */
  lemma SetTakesPriorityExample()
    ensures Classify("cancel alarm 3 and set alarm for 7 am") == SetAlarm
  {
    var a := "cancel alarm 3 and set alarm for 7 am";
    assert OccursAt("set alarm", a, 19);
    ContainsIffOccurs(a, "set alarm");
  }

  /** A command without the letters `e`, `c` and `d` names none of the set or cancel phrases. */
  lemma NoSetOrCancelPhrase(cmd: string)
    requires 'e' !in cmd && 'c' !in cmd && 'd' !in cmd
    ensures !AsksToSet(cmd) && !AsksToCancel(cmd)
  {
    MissingLetterNotContained(cmd, "set the alarm", 'e');
    MissingLetterNotContained(cmd, "set an alarm", 'e');
    MissingLetterNotContained(cmd, "set alarm", 'e');
    MissingLetterNotContained(cmd, "cancel alarm", 'c');
    MissingLetterNotContained(cmd, "delete alarm", 'd');
  }

  /**
   * A command that says "show alarms" and has none of the letters `e`, `c`
   * and `d` (so "show alarms" itself, or "show alarms now") lists alarms.
   */
  lemma ShowAlarmsListed(cmd: string)
    requires Contains(cmd, "show alarms")
    requires 'e' !in cmd && 'c' !in cmd && 'd' !in cmd
    ensures Classify(cmd) == ListAlarms
  {
    NoSetOrCancelPhrase(cmd);
  }
}
