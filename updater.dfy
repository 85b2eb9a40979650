// The bootloader's update session (`updater`): a 16-bit countdown,
// decremented before each round of polling, ends the session when it reaches
// zero; a command that keeps the session alive sets it back to 45000.
module Updater {
  import opened Bytes
  import BootCommands

  /** Rounds of polling run from a countdown holding `t`, when round `i`
      handles a session-restarting command exactly when `restarts[i]` (rounds
      past the end of `restarts` handle none). */
  function SessionRounds(restarts: seq<bool>, t: u16): nat
    decreases |restarts|, t
  {
    var t' := Wrap16(t - 1);
    if t' == 0 || t == 0 then 0
    else if restarts == [] then 1 + SessionRounds([], t')
    else 1 + SessionRounds(restarts[1..], if restarts[0] then BootCommands.CommandWatchdogDelay else t')
  }

  /** `updater`: the countdown starts at `COMMAND_WATCHDOG_DELAY` and each
      round polls UART0, UART1 and the radio; the rounds that handled a
      ping, erase or write-page are given by `restarts`. Returns the number
      of rounds run. */
  method Session(restarts: seq<bool>) returns (rounds: nat)
    ensures rounds == SessionRounds(restarts, BootCommands.CommandWatchdogDelay)
  {
    var timeout: u16 := BootCommands.CommandWatchdogDelay;
    rounds := 0;
    while true
      invariant 1 <= timeout
      invariant rounds + SessionRounds(if rounds < |restarts| then restarts[rounds..] else [], timeout)
                == SessionRounds(restarts, BootCommands.CommandWatchdogDelay)
      decreases if rounds < |restarts| then |restarts| - rounds else 0, timeout
    {
      timeout := Wrap16(timeout - 1);
      if timeout == 0 {
        return;
      }
      // one round: poll UART0, then UART1, then the radio
      if rounds < |restarts| && restarts[rounds] {
        timeout := BootCommands.CommandWatchdogDelay;
      }
      rounds := rounds + 1;
    }
  }

  /** A session in which no command restarts the countdown runs one round
      fewer than the countdown's start value. */
  lemma {:induction false} QuietRounds(t: u16)
    requires t >= 1
    ensures SessionRounds([], t) == t - 1
    decreases t
  {
    if t > 1 {
      QuietRounds(t - 1);
    }
  }

  /** With no commands the session lasts 44999 rounds. */
  lemma QuietSession()
    ensures SessionRounds([], BootCommands.CommandWatchdogDelay) == 44999
  {
    QuietRounds(BootCommands.CommandWatchdogDelay);
  }

  /** A command handled in round `i` of the countdown's life, with none
      before it, restarts the full countdown from there. */
  lemma {:induction false} RestartExtends(restarts: seq<bool>, t: u16, i: nat)
    requires 1 <= t && i < |restarts| && i + 1 < t
    requires restarts[i] && forall j :: 0 <= j < i ==> !restarts[j]
    ensures SessionRounds(restarts, t)
            == i + 1 + SessionRounds(restarts[i + 1..], BootCommands.CommandWatchdogDelay)
    decreases i
  {
    if i > 0 {
      assert restarts[1..][i - 1] == restarts[i];
      assert restarts[1..][i..] == restarts[i + 1..];
      RestartExtends(restarts[1..], t - 1, i - 1);
    }
  }
}
