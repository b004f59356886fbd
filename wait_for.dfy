/**
 * The condition dispatch of `Scraper._wait_for` (scraper.py:57-91): the
 * first element of the `wait_for` pair names the kind of condition, the
 * second is the condition itself or the locator of an element that should
 * become visible. The wait on the browser that follows is not modelled.
 */
module WaitFor {
  import opened Wrappers

  /** Selenium's locator strategies used by `_wait_for`. */
  datatype By = CssSelector | XPath | Id

  /**
   * The second element of the `wait_for` pair: a string, or any other
   * value, of type `C`. A locator must be a string, since `_wait_for`
   * concatenates it into its debug message before building the condition.
   */
  datatype Argument<C> = Text(text: string) | Other(value: C)

  /**
   * The condition handed to `WebDriverWait.until`: a condition given as is,
   * or `visibility_of_element_located((strategy, locator))`.
   */
  datatype Condition<C> = Given(condition: Argument<C>) | VisibilityOfElementLocated(strategy: By, locator: string)

  /**
   * `RuntimeError("Unknown wait-for " + repr(wait_for))`, or the TypeError
   * of concatenating a locator that is not a string to the debug message.
   */
  datatype WaitError<C> = UnknownWaitFor(kind: string, argument: Argument<C>) | LocatorNotText(kind: string, value: C)

  /** The four kinds `_wait_for` accepts. */
  const Kinds: set<string> := {"cond", "vis_css", "vis_xpath", "vis_id"}

  /** The condition `_wait_for((kind, argument))` waits for, or the error it raises. */
  function Until<C>(kind: string, argument: Argument<C>): (r: Result<Condition<C>, WaitError<C>>)
    ensures r.Ok? <==> kind == "cond" || (kind in Kinds && argument.Text?)
    ensures r.Err? && kind !in Kinds ==> r.error == UnknownWaitFor(kind, argument)
    ensures r.Err? && kind in Kinds ==> r.error == LocatorNotText(kind, argument.value)
  {
    if kind == "cond" then Ok(Given(argument))
    else if kind in Kinds && argument.Other? then Err(LocatorNotText(kind, argument.value))
    else if kind == "vis_css" then Ok(VisibilityOfElementLocated(CssSelector, argument.text))
    else if kind == "vis_xpath" then Ok(VisibilityOfElementLocated(XPath, argument.text))
    else if kind == "vis_id" then Ok(VisibilityOfElementLocated(Id, argument.text))
    else Err(UnknownWaitFor(kind, argument))
  }

  /** The kind that selects a condition. */
  function KindOf<C>(c: Condition<C>): string
  {
    match c
    case Given(_) => "cond"
    case VisibilityOfElementLocated(CssSelector, _) => "vis_css"
    case VisibilityOfElementLocated(XPath, _) => "vis_xpath"
    case VisibilityOfElementLocated(Id, _) => "vis_id"
  }

  /** The second element of the pair that selects a condition. */
  function ArgumentOf<C>(c: Condition<C>): Argument<C>
  {
    match c
    case Given(x) => x
    case VisibilityOfElementLocated(_, x) => Text(x)
  }

  /**
   * Every condition is selected by exactly one pair: `Until` and
   * (`KindOf`, `ArgumentOf`) are inverse to each other.
   */
  lemma UntilInverse<C>(kind: string, argument: Argument<C>, c: Condition<C>)
    ensures Until(kind, argument) == Ok(c) <==> kind == KindOf(c) && argument == ArgumentOf(c)
  {
  }
}
