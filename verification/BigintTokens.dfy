/** Refused numbers, bigints and marks among the tokens of a value (packages/protocol-wasm/index.js). */
module BigintTokens {
  import opened Utf16
  import opened JsonText
  import opened MarkedText

  /** A number the replacer refuses: not finite, or an integer that has already been rounded. */
  predicate Refused(n: Number) {
    n.NotFinite? || (n.integer && !n.safe)
  }

  predicate HasRefused(v: Value)
    decreases v
  {
    match v
    case Num(n) => Refused(n)
    case Array(items) => exists k :: 0 <= k < |items| && HasRefused(items[k])
    case Object(members) => exists k :: 0 <= k < |members| && HasRefused(members[k].value)
    case _ => false
  }

  /** How many bigints the replacer meets. */
  function BigTokens(ts: seq<Token>): (r: nat) {
    if ts == [] then 0 else (if ts[0].Big? then 1 else 0) + BigTokens(ts[1..])
  }

  /** Some string or member name that reaches the text holds the mark. */
  ghost predicate Mentions(ts: seq<Token>, mark: Text) {
    exists k :: 0 <= k < |ts| && ts[k].Quoted? && Contains(ts[k].s, mark)
  }
}
