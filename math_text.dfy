/** How `renderTextOrMath` treats each piece of a split question or option
    text: display math between `$$`, inline math between `$`, otherwise text. */
module MathText {
  import opened JsStrings

  datatype Segment = BlockMath(math: string) | InlineMath(math: string) | Plain(text: string)

  /** One part of the split: `$$…$$` is block math and `$…$` inline math,
      each with its delimiters cut off by `slice`; anything else stays text. */
  function Classify(part: string): (seg: Segment)
    ensures seg.BlockMath? <==> StartsWith(part, "$$") && EndsWith(part, "$$")
    ensures seg.InlineMath? <==>
      !(StartsWith(part, "$$") && EndsWith(part, "$$")) && StartsWith(part, "$") && EndsWith(part, "$")
    ensures seg.Plain? ==> seg.text == part
    ensures seg.BlockMath? ==> seg.math == if |part| >= 4 then part[2..|part| - 2] else ""
    ensures seg.InlineMath? ==> seg.math == if |part| >= 2 then part[1..|part| - 1] else ""
  {
    if StartsWith(part, "$$") && EndsWith(part, "$$") then BlockMath(JsSlice(part, 2, -2))
    else if StartsWith(part, "$") && EndsWith(part, "$") then InlineMath(JsSlice(part, 1, -1))
    else Plain(part)
  }

  /** The text a segment stands for, delimiters included. */
  function Delimited(seg: Segment): string {
    match seg
    case BlockMath(m) => "$$" + m + "$$"
    case InlineMath(m) => "$" + m + "$"
    case Plain(t) => t
  }

  /** Classification only removes delimiters: putting them back gives the
      part again, except for the parts made of one to three dollar signs,
      whose delimiters overlap. */
  lemma ClassifyKeepsContent(part: string)
    requires part != "$" && part != "$$" && part != "$$$"
    ensures Delimited(Classify(part)) == part
  {
  }

  /** The overlapping cases: "$" reads as empty inline math, "$$" and "$$$" as empty block math. */
  lemma DollarOnlyParts()
    ensures Classify("$") == InlineMath("")
    ensures Classify("$$") == BlockMath("")
    ensures Classify("$$$") == BlockMath("")
  {
  }
}
