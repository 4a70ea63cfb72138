/** The pure helpers of backend/src/cli/utils/display.js that decide what the
    console tables show: the command column's truncation, the zero-filled
    state counts and the colour of a state. Terminal styling itself is not
    modelled. */
module Display {
  import opened Jobs
  import opened Database

  /** `str.substring(0, length - 3)`: JavaScript clamps a negative end to 0. */
  function PrefixLength(length: int): nat {
    if length - 3 < 0 then 0 else length - 3
  }

  /** `truncate(str, length)`: a string that fits is returned as is; a longer
      one is cut to `length - 3` characters (none when that is negative)
      followed by an ellipsis. For `length >= 3` the result is never longer
      than `length`, and exactly `length` when something was cut. */
  function Truncate(str: string, length: int): (r: string)
    ensures |str| <= length ==> r == str
    ensures |str| > length ==> r == str[..PrefixLength(length)] + "..."
    ensures length >= 3 ==> |r| <= length
    ensures length >= 3 && |str| > length ==> |r| == length
    ensures length < 3 && |str| > length ==> r == "..."
  {
    if |str| <= length then str else str[..PrefixLength(length)] + "..."
  }

  /** Truncating a truncated string changes nothing, whatever the length. */
  lemma TruncateIdempotent(str: string, length: int)
    ensures Truncate(Truncate(str, length), length) == Truncate(str, length)
  {
  }

  /** A truncated string keeps a prefix of the original: either all of it,
      or a prefix followed by the ellipsis. */
  lemma TruncateKeepsPrefix(str: string, length: int)
    ensures var r := Truncate(str, length);
      r == str || (|r| >= 3 && r[|r| - 3..] == "..." && r[..|r| - 3] <= str)
  {
  }

  /** The zero-filled state counts: a 0 for each of the five states. */
  function ZeroCounts(): (z: map<string, int>)
    ensures z.Keys == StateNames
    ensures forall k :: k in z ==> z[k] == 0
    ensures forall st :: StateName(st) in z && z[StateName(st)] == 0
  {
    map k | k in StateNames :: 0
  }

  /** `statsTable`'s `stateCounts`: the five zero entries overwritten by
      whatever `stats` holds; keys outside the five are kept too. */
  function StateCounts(stats: map<string, int>): (counts: map<string, int>)
    ensures counts.Keys == StateNames + stats.Keys
    ensures forall k :: k in stats ==> counts[k] == stats[k]
    ensures forall k :: k in StateNames && k !in stats ==> counts[k] == 0
  {
    ZeroCounts() + stats
  }

  /** The counts the store reports already hold all five states, so the
      status table shows exactly the store's counts. */
  lemma StatusTableShowsStoreCounts(s: Store)
    ensures StateCounts(GetStats(s)) == GetStats(s)
  {
  }

  /** The colours `colorState` paints a state with. */
  datatype Color = Yellow | Blue | Green | Red | Gray | White

  /** `colorState`: one colour per known state, white for any other text. */
  function StateColor(state: string): (c: Color)
    ensures state == "pending" <==> c == Yellow
    ensures state == "processing" <==> c == Blue
    ensures state == "completed" <==> c == Green
    ensures state == "failed" <==> c == Red
    ensures state == "dead" <==> c == Gray
    ensures state !in StateNames <==> c == White
  {
    if state == "pending" then Yellow
    else if state == "processing" then Blue
    else if state == "completed" then Green
    else if state == "failed" then Red
    else if state == "dead" then Gray
    else White
  }

  /** Every state a row can be in gets its own colour, never the fallback. */
  lemma StoredStatesAreColored(a: JobState, b: JobState)
    ensures StateColor(StateName(a)) != White
    ensures StateColor(StateName(a)) == StateColor(StateName(b)) ==> a == b
  {
  }
}
