/** Running a command list on a device state, one command after the other. */
module Interpreter {

  function ExecuteAll<S, C>(step: (S, C) -> S, s: S, commands: seq<C>): S {
    if commands == [] then s
    else step(ExecuteAll(step, s, commands[..|commands| - 1]), commands[|commands| - 1])
  }

  lemma ExecuteSnoc<S, C>(step: (S, C) -> S, s: S, commands: seq<C>, last: C)
    ensures ExecuteAll(step, s, commands + [last]) == step(ExecuteAll(step, s, commands), last)
  {
    assert (commands + [last])[..|commands|] == commands;
  }

  lemma ExecuteTwo<S, C>(step: (S, C) -> S, s: S, first: C, second: C)
    ensures ExecuteAll(step, s, [first]) == step(s, first)
    ensures ExecuteAll(step, s, [first, second]) == step(step(s, first), second)
  {
    assert [] + [first] == [first] && [first] + [second] == [first, second];
    ExecuteSnoc(step, s, [], first);
    ExecuteSnoc(step, s, [first], second);
  }
}
