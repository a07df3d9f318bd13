/**
 The `log(template)` decorator of cli.py as a higher-order function. The
 elapsed time is an input, already rendered as the text `template.format`
 would insert; the echoed line is returned instead of printed.
 */
module Timing {
  import opened Options
  import opened Text

  /** A message template with one insertion point: `before` + duration + `after`. */
  datatype Template = Template(before: string, after: string)

  /** The decorator's default template `'{}'`: the duration alone. */
  const DefaultTemplate := Template("", "")

  /** What separates the function's name from the filled template in the echoed line. */
  const NameSeparator := " — "

  function Fill(t: Template, duration: string): string {
    t.before + duration + t.after
  }

  /** How a call of the wrapped function ended: with a value, or by raising. */
  datatype Call<R> = Returned(value: R) | Raised(exception: string)

  /** The wrapper's outcome and the lines it echoed. */
  datatype Logged<R> = Logged(call: Call<R>, lines: seq<string>)

  function LogLine(name: string, t: Template, duration: string): string {
    name + NameSeparator + Fill(t, duration)
  }

  /**
   Calls `f` on `arg`; once it returns, echoes `<name> — <template filled with
   the duration>`. The call's outcome is passed on untouched, and when `f`
   raises nothing is echoed, since the echo follows the call.
   */
  function Log<A, R>(name: string, t: Template, f: A -> Call<R>, duration: string, arg: A): (r: Logged<R>)
    ensures r.call == f(arg)
    ensures |r.lines| == if r.call.Returned? then 1 else 0
    ensures r.call.Returned? ==> StartsWith(r.lines[0], name + NameSeparator)
    ensures r.call.Returned? ==> IsInfix(duration, r.lines[0])
    ensures r.call.Returned? ==> r.lines[0][|name + NameSeparator|..] == Fill(t, duration)
  {
    var c := f(arg);
    if c.Raised? then Logged(c, [])
    else
      OccursInConcat(name + NameSeparator + t.before, duration, t.after);
      assert LogLine(name, t, duration) == name + NameSeparator + t.before + duration + t.after;
      Logged(c, [LogLine(name, t, duration)])
  }

  /** The echoed line splits back into the function's name and the filled template. */
  lemma LogLineRoundTrip(name: string, t: Template, duration: string)
    requires ' ' !in name
    ensures SplitHead(LogLine(name, t, duration), NameSeparator) == Some((name, Fill(t, duration)))
  {
    SplitHeadAfter(name, NameSeparator, Fill(t, duration));
  }

  /** With the default template the echoed line is the name, the separator and the duration alone. */
  lemma DefaultTemplateLine<A, R>(name: string, f: A -> Call<R>, duration: string, arg: A)
    requires f(arg).Returned?
    ensures Log(name, DefaultTemplate, f, duration, arg).lines == [name + NameSeparator + duration]
  {
    assert Fill(DefaultTemplate, duration) == duration;
  }

  /** The duration shapes only the echoed line: the outcome is the same for every duration. */
  lemma LogOutcomeIgnoresDuration<A, R>(name: string, t: Template, f: A -> Call<R>, d1: string, d2: string, arg: A)
    ensures Log(name, t, f, d1, arg).call == Log(name, t, f, d2, arg).call
    ensures |Log(name, t, f, d1, arg).lines| == |Log(name, t, f, d2, arg).lines|
  {
  }
}
