/**
 * The sheet's column schema (google-apps-script.js): the header list of
 * `createHeaders`, the header-to-key table of `headerToKey`, and the
 * fallback key made from an unknown header's text.
 */
module Headers {
  import opened Strings

  /** The `mapping` object of `headerToKey`: header text to response key. */
  const Mapping: map<string, string> := map[
    "Timestamp" := "timestamp",
    "Usage Level" := "q1_usage_level",
    "Tools Used" := "q2_tools",
    "Tools Other" := "q2_tools_other",
    "Usage Frequency" := "q3_frequency",
    "Time Saved" := "q4_time_saved",
    "Integration Level" := "q5_integration",
    "Tasks Using AI" := "q6_tasks",
    "Tasks Other" := "q6_tasks_other",
    "Stopped Doing Manually" := "q7_stopped_doing",
    "Biggest Win" := "q8_biggest_win",
    "Most Time Consuming Tasks" := "q9_time_consuming",
    "Tried AI for Tasks" := "q10_tried_ai",
    "What Went Wrong" := "q10b_what_went_wrong",
    "Barriers to Use" := "q11_barriers",
    "Barriers Other" := "q11_barriers_other",
    "Confidence Level" := "q12_confidence",
    "Excitement Level" := "q13_excitement",
    "Change Mind About AI" := "q13b_change_mind",
    "Use First" := "q14_use_first",
    "Support Needed" := "q15_support",
    "Support Other" := "q15_support_other",
    "Specific Prompt Needed" := "q16_specific_prompt",
    "Name" := "q17_name",
    "Department" := "q18_department",
    "Tenure" := "q19_tenure",
    "Success Story" := "q20_success_story"
  ]

  /** `createHeaders()` */
  function CreateHeaders(): (headers: seq<string>)
    ensures |headers| == 27 && headers[0] == "Timestamp"
  {
    [
      "Timestamp",
      "Usage Level",
      "Tools Used",
      "Tools Other",
      "Usage Frequency",
      "Time Saved",
      "Integration Level",
      "Tasks Using AI",
      "Tasks Other",
      "Stopped Doing Manually",
      "Biggest Win",
      "Most Time Consuming Tasks",
      "Tried AI for Tasks",
      "What Went Wrong",
      "Barriers to Use",
      "Barriers Other",
      "Confidence Level",
      "Excitement Level",
      "Change Mind About AI",
      "Use First",
      "Support Needed",
      "Support Other",
      "Specific Prompt Needed",
      "Name",
      "Department",
      "Tenure",
      "Success Story"
    ]
  }

  /** The keys of the created headers, column by column. */
  const CreatedKeys: seq<string> := [
    "timestamp",
    "q1_usage_level",
    "q2_tools",
    "q2_tools_other",
    "q3_frequency",
    "q4_time_saved",
    "q5_integration",
    "q6_tasks",
    "q6_tasks_other",
    "q7_stopped_doing",
    "q8_biggest_win",
    "q9_time_consuming",
    "q10_tried_ai",
    "q10b_what_went_wrong",
    "q11_barriers",
    "q11_barriers_other",
    "q12_confidence",
    "q13_excitement",
    "q13b_change_mind",
    "q14_use_first",
    "q15_support",
    "q15_support_other",
    "q16_specific_prompt",
    "q17_name",
    "q18_department",
    "q19_tenure",
    "q20_success_story"
  ]

  /** One character of the fallback key. */
  function SlugChar(c: char): char {
    if c == ' ' then '_' else LowerChar(c)
  }

  /** `header.toLowerCase().replace(/ /g, '_')`, lower-casing ASCII letters. */
  function Slug(header: string): (key: string)
    ensures |key| == |header|
    decreases |header|
  {
    if header == [] then [] else [SlugChar(header[0])] + Slug(header[1..])
  }

  /** The fallback key has the header's length, no space and no
      upper-case ASCII letter: spaces become '_', capitals their lower-case
      letter, every other character stays. */
  lemma {:induction false} SlugShape(header: string)
    ensures |Slug(header)| == |header|
    ensures forall i :: 0 <= i < |header| ==> Slug(header)[i] != ' ' && !('A' <= Slug(header)[i] <= 'Z')
    ensures forall i :: 0 <= i < |header| && header[i] == ' ' ==> Slug(header)[i] == '_'
    ensures forall i :: 0 <= i < |header| && 'A' <= header[i] <= 'Z' ==> Slug(header)[i] as int == header[i] as int + 32
    ensures forall i :: 0 <= i < |header| && header[i] != ' ' && !('A' <= header[i] <= 'Z') ==> Slug(header)[i] == header[i]
    decreases |header|
  {
    if header != [] {
      SlugShape(header[1..]);
      assert forall i :: 1 <= i < |header| ==> Slug(header)[i] == Slug(header[1..])[i - 1];
    }
  }

  /** Making a key of a key changes nothing. */
  lemma {:induction false} SlugIdempotent(header: string)
    ensures Slug(Slug(header)) == Slug(header)
    decreases |header|
  {
    if header != [] {
      SlugIdempotent(header[1..]);
    }
  }

  /** `headerToKey(header)`: the table's key, or the fallback when the
      table has none (or a falsy one). */
  function HeaderToKey(header: string): (key: string)
    ensures header in Mapping ==> key == Mapping[header]
    ensures header !in Mapping ==> key == Slug(header)
    ensures header != "" ==> key != ""
  {
    MappingKeysNonEmpty(header);
    if header in Mapping && Mapping[header] != "" then Mapping[header] else Slug(header)
  }

  /** No header of the table maps to the empty key, so the `||` fallback
      is taken only for headers the table lacks. */
  lemma MappingKeysNonEmpty(header: string)
    ensures header in Mapping ==> Mapping[header] != ""
  {
  }

  /** The created headers are distinct and start with "Timestamp"; their
      keys are distinct and non-empty. */
  lemma CreatedHeadersDistinct()
    ensures |CreateHeaders()| == |CreatedKeys| == 27 && CreateHeaders()[0] == "Timestamp"
    ensures forall i, j :: 0 <= i < j < |CreateHeaders()| ==> CreateHeaders()[i] != CreateHeaders()[j]
    ensures forall i, j :: 0 <= i < j < |CreatedKeys| ==> CreatedKeys[i] != CreatedKeys[j]
    ensures forall i :: 0 <= i < |CreatedKeys| ==> CreatedKeys[i] != ""
  {
    HeaderTextsDistinct();
    KeyTextsDistinct();
  }

  lemma HeaderTextsDistinct()
    ensures forall i, j :: 0 <= i < j < |CreateHeaders()| ==> CreateHeaders()[i] != CreateHeaders()[j]
  {
  }

  lemma KeyTextsDistinct()
    ensures forall i, j :: 0 <= i < j < |CreatedKeys| ==> CreatedKeys[i] != CreatedKeys[j]
  {
  }

  /** Column i of the created headers is in the table, with the i-th
      created key; so none of them falls back to a slug. */
  lemma CreatedHeaderIsMapped(i: nat)
    requires i < |CreateHeaders()|
    ensures CreateHeaders()[i] in Mapping && Mapping[CreateHeaders()[i]] == CreatedKeys[i]
    ensures HeaderToKey(CreateHeaders()[i]) == CreatedKeys[i]
  {
    if i < 9 {
      MappedBelow9(i);
    } else if i < 18 {
      MappedBelow18(i);
    } else {
      MappedFrom18(i);
    }
  }

  lemma MappedBelow9(i: nat)
    requires i < 9
    ensures CreateHeaders()[i] in Mapping && Mapping[CreateHeaders()[i]] == CreatedKeys[i]
  {
  }

  lemma MappedBelow18(i: nat)
    requires 9 <= i < 18
    ensures CreateHeaders()[i] in Mapping && Mapping[CreateHeaders()[i]] == CreatedKeys[i]
  {
  }

  lemma MappedFrom18(i: nat)
    requires 18 <= i < 27
    ensures CreateHeaders()[i] in Mapping && Mapping[CreateHeaders()[i]] == CreatedKeys[i]
  {
  }

  /** A header the table does not list gets the fallback key. */
  lemma UnknownHeaderIsSlugged(header: string)
    requires header !in Mapping
    ensures HeaderToKey(header) == Slug(header)
    ensures |HeaderToKey(header)| == |header|
    ensures forall i :: 0 <= i < |header| ==> HeaderToKey(header)[i] != ' '
  {
    SlugShape(header);
  }

  /** An unmapped header such as "New Field" gets the key "new_field". */
  lemma NewFieldExample()
    ensures HeaderToKey("New Field") == "new_field"
  {
    NewFieldIsUnmapped();
    NewFieldSlug();
  }

  lemma NewFieldIsUnmapped()
    ensures "New Field" !in Mapping
  {
  }

  lemma NewFieldSlug()
    ensures Slug("New Field") == "new_field"
  {
    var h := "New Field";
    assert LowerChar('N') == 'n' && LowerChar('F') == 'f';
    SlugShape(h);
    var k := Slug(h);
    assert k[0] == 'n' && k[1] == 'e' && k[2] == 'w' && k[3] == '_' && k[4] == 'f';
    assert k[5] == 'i' && k[6] == 'e' && k[7] == 'l' && k[8] == 'd';
  }
}
