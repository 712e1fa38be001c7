/** The regular-expression substitution helper `replace(input, regex, replacer)`
    the converter calls at four places. The helper and its patterns are not part
    of this model: the model takes the input as already cut by a pattern into
    the text between matches and the matches themselves (the whole match and
    its first group), and builds the output left to right, each match replaced
    by what the callback returns for it. */
module Replacer {
  import opened Wrappers

  datatype MatchResult = MatchResult(whole: string, group1: string)

  datatype Segment = Text(text: string) | Found(found: MatchResult)

  /** A compiled pattern: cuts a text into text and matches. */
  type Matcher = string -> seq<Segment>

  /** The text a sequence of segments was cut from. */
  function Source(segments: seq<Segment>): string
    decreases |segments|
  {
    if segments == [] then ""
    else
      (match segments[0] case Text(t) => t case Found(m) => m.whole) + Source(segments[1..])
  }

  /** A matcher that only cuts: the pieces put back together give its input. */
  ghost predicate Cuts(matcher: Matcher) {
    forall s :: Source(matcher(s)) == s
  }

  /** The substitution: text between matches is kept, each match is replaced by
      the callback's result; the first callback exception aborts it all. */
  function Replace<E>(segments: seq<Segment>, replacer: MatchResult -> Result<string, E>): (r: Result<string, E>)
    // an exception is always one the callback threw for some match
    ensures r.Failure? ==>
      exists i :: 0 <= i < |segments| && segments[i].Found? && replacer(segments[i].found) == Failure(r.error)
    // a result means the callback returned for every match
    ensures r.Success? ==>
      forall i :: 0 <= i < |segments| && segments[i].Found? ==> replacer(segments[i].found).Success?
    decreases |segments|
  {
    if segments == [] then Success("")
    else
      var head := match segments[0] case Text(t) => Success(t) case Found(m) => replacer(m);
      match head
      case Failure(e) => Failure(e)
      case Success(h) =>
        match Replace(segments[1..], replacer)
        case Failure(e) => Failure(e)
        case Success(rest) => Success(h + rest)
  }

  /** The substitution with a callback that cannot throw. */
  function Substitute(segments: seq<Segment>, replacement: MatchResult -> string): string
    decreases |segments|
  {
    if segments == [] then ""
    else
      (match segments[0] case Text(t) => t case Found(m) => replacement(m)) + Substitute(segments[1..], replacement)
  }

  /** A callback that never throws gives a substitution that never throws. */
  lemma {:induction false} ReplaceTotal<E>(segments: seq<Segment>, replacer: MatchResult -> Result<string, E>, replacement: MatchResult -> string)
    requires forall m :: replacer(m) == Success(replacement(m))
    ensures Replace(segments, replacer) == Success(Substitute(segments, replacement))
    decreases |segments|
  {
    if segments != [] {
      ReplaceTotal(segments[1..], replacer, replacement);
    }
  }

  /** A callback that gives every match back unchanged leaves the text as it was. */
  lemma {:induction false} ReplaceUnchanged(segments: seq<Segment>, replacement: MatchResult -> string)
    requires forall i :: 0 <= i < |segments| && segments[i].Found? ==> replacement(segments[i].found) == segments[i].found.whole
    ensures Substitute(segments, replacement) == Source(segments)
    decreases |segments|
  {
    if segments != [] {
      assert forall i :: 0 <= i < |segments| - 1 ==> segments[1..][i] == segments[i + 1];
      ReplaceUnchanged(segments[1..], replacement);
    }
  }

  /** The substitution throws exactly when the callback throws for one of the
      matches, and then with the exception of the leftmost such match. */
  lemma {:induction false} ReplaceFailure<E>(segments: seq<Segment>, replacer: MatchResult -> Result<string, E>)
    ensures Replace(segments, replacer).Failure? <==>
      exists i :: 0 <= i < |segments| && segments[i].Found? && replacer(segments[i].found).Failure?
    ensures Replace(segments, replacer).Failure? ==>
      exists i :: && 0 <= i < |segments| && segments[i].Found?
                  && replacer(segments[i].found) == Failure(Replace(segments, replacer).error)
                  && forall j :: 0 <= j < i && segments[j].Found? ==> replacer(segments[j].found).Success?
    decreases |segments|
  {
    if segments != [] {
      var tail := segments[1..];
      assert forall i :: 0 <= i < |tail| ==> tail[i] == segments[i + 1];
      ReplaceFailure(tail, replacer);
      if Replace(segments, replacer).Failure? {
        if segments[0].Found? && replacer(segments[0].found).Failure? {
          assert segments[0].Found? && replacer(segments[0].found) == Failure(Replace(segments, replacer).error);
        } else {
          var k :| && 0 <= k < |tail| && tail[k].Found?
                   && replacer(tail[k].found) == Failure(Replace(tail, replacer).error)
                   && forall j :: 0 <= j < k && tail[j].Found? ==> replacer(tail[j].found).Success?;
          assert segments[k + 1] == tail[k];
          forall j | 0 <= j < k + 1 && segments[j].Found?
            ensures replacer(segments[j].found).Success?
          {
            if j > 0 {
              assert segments[j] == tail[j - 1];
            }
          }
        }
      } else {
        forall i | 0 <= i < |segments| && segments[i].Found?
          ensures replacer(segments[i].found).Success?
        {
          if i > 0 {
            assert segments[i] == tail[i - 1];
          }
        }
      }
    }
  }
}
