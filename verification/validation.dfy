/** The usage pattern the membership test exists for: a function that accepts
    either a member or raw text from a payload, and rejects everything else with
    a `ValueError`. Also the concrete classes the repository's tests and example
    script declare, with the outcomes those tests expect. */
module Validation {
  import opened Wrappers
  import opened Text
  import opened Variant
  import opened Values
  import opened Meta

  /** `if not isinstance(v, d): raise ValueError(...)`, otherwise continue with
      the value formatted as text (`f"{v}"`, which for a member is its value).
      The failure carries the rejected value. */
  function Validate(v: Val, d: Def): (r: Result<string, Val>)
    ensures r.Success? <==> IsStr(v) && Declares(d, TextOf(v))
    ensures r.Success? ==> FromValue(d, r.value).Some? && TextOf(v) == r.value
    ensures r.Failure? ==> r.error == v
  {
    if !IsInstance(v, d) then Failure(v) else Success(TextOf(v))
  }

  /** The validating query of the tests: `f"querying with {metric}"` once the
      metric passes. */
  function QueryVectorDb(metric: Val): (r: Result<string, Val>)
    ensures r.Success? <==> IsInstance(metric, DistanceMetric)
    ensures r.Success? ==> r.value == "querying with " + TextOf(metric)
  {
    match Validate(metric, DistanceMetric)
    case Success(text) => Success("querying with " + text)
    case Failure(e) => Failure(e)
  }

  /** `Color`: RED, GREEN, BLUE. */
  const Color := Def("Color", [Entry("RED", "red"), Entry("GREEN", "green"), Entry("BLUE", "blue")])

  /** `DistanceMetric`: COSINE, L2, DOT. */
  const DistanceMetric := Def("DistanceMetric", [Entry("COSINE", "cosine"), Entry("L2", "l2"), Entry("DOT", "dot")])

  /** `BedrockModel`: three model identifiers. */
  const BedrockModel := Def("BedrockModel", [
    Entry("CLAUDE_3_SONNET", "anthropic.claude-3-sonnet-20240229-v1:0"),
    Entry("CLAUDE_3_HAIKU", "anthropic.claude-3-haiku-20240307-v1:0"),
    Entry("TITAN_EMBEDDINGS", "amazon.titan-embed-text-v2:0")])

  /** A class with an alias: `Y` repeats the text of `X`. */
  const Aliased := Def("Aliased", [Entry("X", "v"), Entry("Y", "v")])

  /** The classes the tests declare bind each name once and have no aliases. */
  lemma ColorWellFormed()
    ensures NamesDistinct(Color) && NoAliases(Color)
  {
    NoAliasesIffDistinct(Color);
  }

  lemma DistanceMetricWellFormed()
    ensures NamesDistinct(DistanceMetric) && NoAliases(DistanceMetric)
  {
    NoAliasesIffDistinct(DistanceMetric);
  }

  lemma BedrockModelWellFormed()
    ensures NamesDistinct(BedrockModel) && NoAliases(BedrockModel)
  {
    NoAliasesIffDistinct(BedrockModel);
  }

  /** `len(Color) == 3`, `Color.RED` and `Color("red") is Color.RED`. */
  lemma ColorLookup()
    ensures Count(Color) == 3
    ensures ByName(Color, "RED") == Some(Member(Color, "RED", "red"))
    ensures FromValue(Color, "red") == Some(Member(Color, "RED", "red"))
  {
    var red := Member(Color, "RED", "red");
    ColorWellFormed();
    assert MadeAt(red, Color, 0);
    ByNameRoundTrip(Color, red);
    FromValueRoundTrip(Color, red);
  }

  /** The alias adds no member: `len` is 1, iteration yields `X` alone, and
      `Aliased.Y` is `Aliased.X`. */
  lemma AliasScenario()
    ensures Count(Aliased) == 1
    ensures Members(Aliased) == [Member(Aliased, "X", "v")]
    ensures ByName(Aliased, "Y") == Some(Member(Aliased, "X", "v"))
  {
    var x := Member(Aliased, "X", "v");
    assert MadeAt(x, Aliased, 0);
    assert IsAliasAt(Aliased, 1);
    assert NamesDistinct(Aliased);
    ByNameResolvesAlias(Aliased, 1);
    FromValueRoundTrip(Aliased, x);
  }

  /** `Color("green") is Color.GREEN`; "yellow" names no member. */
  lemma ColorFromValue()
    ensures FromValue(Color, "green") == Some(Member(Color, "GREEN", "green"))
    ensures FromValue(Color, "yellow") == None
  {
    var green := Member(Color, "GREEN", "green");
    assert MadeAt(green, Color, 1);
    FromValueRoundTrip(Color, green);
  }

  /** `str(Color.BLUE) == "blue"`, which does not mention the class name. */
  lemma ColorRendering()
    ensures Render(Member(Color, "BLUE", "blue")) == "blue"
    ensures !Contains(Render(Member(Color, "BLUE", "blue")), "Color")
  {
  }

  /** Members equal their own raw text, from either side, and nothing else. */
  lemma ColorEquality()
    ensures PyEq(Enum(Member(Color, "RED", "red")), Raw("red"))
    ensures !PyEq(Enum(Member(Color, "RED", "red")), Raw("blue"))
    ensures !PyEq(Enum(Member(Color, "RED", "red")), Enum(Member(Color, "GREEN", "green")))
    ensures PyEq(Raw("cosine"), Enum(Member(DistanceMetric, "COSINE", "cosine")))
  {
  }

  /** Equality outside text: `True == 1`, `"1" != 1`, and a list holding a
      member equals the list holding its value. */
  lemma OtherEqualityScenario()
    ensures PyEq(Bool(true), Int(1))
    ensures !PyEq(Raw("1"), Int(1))
    ensures PyEq(List([Enum(Member(Color, "RED", "red"))]), List([Raw("red")]))
  {
    assert PyEq(Enum(Member(Color, "RED", "red")), Raw("red"));
  }

  /** Raw text passes on an exact match with a declared value. */
  lemma ColorRawText()
    ensures IsInstance(Raw("red"), Color)
    ensures !IsInstance(Raw("yellow"), Color)
  {
    assert Color.entries[0].value == "red";
  }

  /** Matching is case-sensitive: the upper-case name fails. */
  lemma ColorCaseSensitive()
    ensures !IsInstance(Raw("RED"), Color)
  {
  }

  /** Matching is case-sensitive: the capitalized value fails. */
  lemma ColorCapitalizedText()
    ensures !IsInstance(Raw("Red"), Color)
  {
  }

  /** The empty string is not a declared value. */
  lemma ColorEmptyText()
    ensures !IsInstance(Raw(""), Color)
  {
  }

  /** A long model identifier passes; an unrelated one fails. */
  lemma BedrockRawText()
    ensures IsInstance(Raw("anthropic.claude-3-sonnet-20240229-v1:0"), BedrockModel)
    ensures !IsInstance(Raw("gpt-4"), BedrockModel)
  {
    assert BedrockModel.entries[0].value == "anthropic.claude-3-sonnet-20240229-v1:0";
  }

  /** Members pass their own class; a member of another class with no shared
      text fails. */
  lemma MemberScenario()
    ensures IsInstance(Enum(Member(Color, "RED", "red")), Color)
    ensures !IsInstance(Enum(Member(DistanceMetric, "COSINE", "cosine")), Color)
  {
    assert Color.entries[0].value == "red";
  }

  /** Scalars of other kinds fail. */
  lemma OtherScalarsScenario()
    ensures !IsInstance(Int(1), Color)
    ensures !IsInstance(Null, Color)
  {
    NonTextRejected(Int(1), Color);
    NonTextRejected(Null, Color);
  }

  /** Containers fail, even when they hold a valid value. */
  lemma ContainersScenario()
    ensures !IsInstance(List([Raw("red")]), Color)
    ensures !IsInstance(Dict([(Raw("value"), Raw("red"))]), Color)
  {
    NonTextRejected(List([Raw("red")]), Color);
    NonTextRejected(Dict([(Raw("value"), Raw("red"))]), Color);
  }

  /** `BedrockModel.CLAUDE_3_SONNET.startswith("anthropic")`. */
  lemma PrefixScenario()
    ensures StartsWithV(Enum(Member(BedrockModel, "CLAUDE_3_SONNET", "anthropic.claude-3-sonnet-20240229-v1:0")), "anthropic")
  {
    SonnetStartsWithAnthropic();
  }

  /** The Sonnet identifier begins with "anthropic". */
  lemma SonnetStartsWithAnthropic()
    ensures StartsWith("anthropic.claude-3-sonnet-20240229-v1:0", "anthropic")
  {
    var sonnet := "anthropic.claude-3-sonnet-20240229-v1:0";
    assert sonnet[..9] == "anthropic";
  }

  /** `BedrockModel.TITAN_EMBEDDINGS.endswith(":0")`. */
  lemma SuffixScenario()
    ensures EndsWithV(Enum(Member(BedrockModel, "TITAN_EMBEDDINGS", "amazon.titan-embed-text-v2:0")), ":0")
  {
    assert EndsWith("amazon.titan-embed-text-v2:0", ":0");
  }

  /** The Haiku identifier contains "claude" at index 10. */
  lemma HaikuContainsClaude()
    ensures Contains("anthropic.claude-3-haiku-20240307-v1:0", "claude")
  {
    var haiku := "anthropic.claude-3-haiku-20240307-v1:0";
    assert haiku == "anthropic." + "claude" + "-3-haiku-20240307-v1:0";
    assert OccursAt(haiku, "claude", 10);
  }

  /** `"claude" in BedrockModel.CLAUDE_3_HAIKU`. */
  lemma ContainsScenario()
    ensures ContainsV(Enum(Member(BedrockModel, "CLAUDE_3_HAIKU", "anthropic.claude-3-haiku-20240307-v1:0")), "claude")
  {
    HaikuContainsClaude();
  }

  /** `Color.RED.replace("red", "blue") == "blue"`, as plain text. */
  lemma ReplaceScenario()
    ensures ReplaceV(Enum(Member(Color, "RED", "red")), "red", "blue") == Raw("blue")
  {
    MemberReplaceCases(Member(Color, "RED", "red"), "red", "blue");
  }

  /** The validating query accepts the member COSINE and the raw text "l2". */
  lemma QueryVectorDbAccepts()
    ensures QueryVectorDb(Enum(Member(DistanceMetric, "COSINE", "cosine"))) == Success("querying with cosine")
    ensures QueryVectorDb(Raw("l2")) == Success("querying with l2")
  {
    assert DistanceMetric.entries[0].value == "cosine";
    assert DistanceMetric.entries[1].value == "l2";
    assert "querying with " + "cosine" == "querying with cosine";
    assert "querying with " + "l2" == "querying with l2";
  }

  /** The validating query rejects "euclidean" and `None`. */
  lemma QueryVectorDbRejects()
    ensures QueryVectorDb(Raw("euclidean")) == Failure(Raw("euclidean"))
    ensures QueryVectorDb(Null) == Failure(Null)
  {
  }
}
