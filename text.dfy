/** The two Python `str` operations the bot relies on: `str.split` with a
    one-character separator (genre clean-up) and `str.join` (reply text). */
module PyText {

  /** `sep.join(parts)`: the parts in order with `sep` between neighbours. */
  function Join(sep: string, parts: seq<string>): string
  {
    if |parts| == 0 then ""
    else if |parts| == 1 then parts[0]
    else parts[0] + sep + Join(sep, parts[1..])
  }

  /** `s.split(sep)` for a one-character separator: the maximal runs between
      separators, so there is always at least one piece (`"".split(",")` is
      `[""]`) and no piece contains the separator. */
  function Split(s: string, sep: char): (parts: seq<string>)
    ensures |parts| >= 1
    ensures forall i :: 0 <= i < |parts| ==> sep !in parts[i]
  {
    if s == [] then [""]
    else
      var rest := Split(s[1..], sep);
      if s[0] == sep then [""] + rest
      else [[s[0]] + rest[0]] + rest[1..]
  }

  /** Splitting loses nothing: joining the pieces back with the separator
      gives the original text. */
  lemma {:induction false} JoinSplit(s: string, sep: char)
    ensures Join([sep], Split(s, sep)) == s
  {
    if s != [] {
      JoinSplit(s[1..], sep);
      var rest := Split(s[1..], sep);
      if s[0] == sep {
        assert ([""] + rest)[1..] == rest;
      } else if |rest| > 1 {
        var parts := [[s[0]] + rest[0]] + rest[1..];
        assert parts[1..] == rest[1..];
        calc {
          Join([sep], parts);
          ([s[0]] + rest[0]) + [sep] + Join([sep], rest[1..]);
          [s[0]] + (rest[0] + [sep] + Join([sep], rest[1..]));
          [s[0]] + Join([sep], rest);
        }
      }
    }
  }

  /** The first piece of a split is a prefix of the text, is the whole text
      exactly when the separator does not occur, and otherwise stops at the
      first separator. */
  lemma {:induction false} SplitHead(s: string, sep: char)
    ensures Split(s, sep)[0] <= s
    ensures Split(s, sep)[0] == s <==> sep !in s
    ensures |Split(s, sep)[0]| < |s| ==> s[|Split(s, sep)[0]|] == sep
  {
    if s != [] && s[0] != sep {
      SplitHead(s[1..], sep);
      assert Split(s, sep)[0] == [s[0]] + Split(s[1..], sep)[0];
      assert s == [s[0]] + s[1..];
    }
  }

  /** `s.split(",")[0]`: the text before the first comma, or the whole text
      when it has none. */
  function FirstField(s: string): (r: string)
    ensures ',' !in r
    ensures r <= s
    ensures r == s <==> ',' !in s
    ensures |r| < |s| ==> s[|r|] == ','
  {
    SplitHead(s, ',');
    Split(s, ',')[0]
  }

  /** Joining two non-empty lists is joining each and putting one separator
      between the results. */
  lemma {:induction false} JoinAppend(sep: string, xs: seq<string>, ys: seq<string>)
    requires |xs| > 0 && |ys| > 0
    ensures Join(sep, xs + ys) == Join(sep, xs) + sep + Join(sep, ys)
  {
    if |xs| == 1 {
      assert (xs + ys)[1..] == ys;
    } else {
      JoinAppend(sep, xs[1..], ys);
      assert (xs + ys)[1..] == xs[1..] + ys;
    }
  }
}
