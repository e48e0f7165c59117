# Variant: a closed set of text constants with a value-based membership test

This project models the `Variant` construct of py-wraps-data-types in Dafny.
A Variant class is a Python `str` enumeration. Its body declares named text
constants (`RED = "red"`). Each member is both an enum member and a `str`. The
class's metaclass overrides `isinstance(v, cls)`. A `str` is accepted exactly
when its text is one of the class's values, so validation code accepts a typed
member and raw text from a payload through one check. Rendering a member with
`str()` gives its bare value.

Modules, one per concern:

- `Variant` (variant.dfy) covers `Variant` in `__init__.py`. It holds the
  definition (`Def`, a class name and its `(name, value)` entries in declaration
  order) and the member (`Member`, which carries its owning `Def`, name and
  value). It also holds iteration, `len`, the value-to-member table, lookup by
  value and by name, and `__str__` rendering. A constant whose text repeats an
  earlier one is an alias: it makes no member of its own, and its name is bound
  to the member of the first constant with that text.
- `Values` (values.dfy) is the universe of Python values a check can receive
  (`Val`: raw text, enum member, int, bool, None, list, dict). It gives each
  value's runtime class, with `issubclass` (every Variant class derives from
  `str`). It models `==` as Python evaluates it: the left operand's `__eq__`,
  then the reflected one, except that a right operand whose class is a proper
  subclass of the left one's (raw text compared with a member) is asked first; when
  both decline, identity. It also holds the text methods a member inherits
  from `str`.
- `Meta` (meta.py) is the membership test `IsInstance(v, d)`. It is an ordinary
  function rather than a type hook. Its lemmas cover members, raw text and
  other kinds of value.
- `Text` covers the `str` operations the members inherit, in their
  two-argument forms: `startswith`, `endswith`, `in` and `replace`. `replace`
  follows Python's rules, including the empty target. `Find` is the scan that
  decides `in`.
- `Validation` covers the validating-call pattern (reject with `ValueError`
  unless the check passes). It also declares the classes `Color`,
  `DistanceMetric` and `BedrockModel` and states the outcomes the repository's
  tests expect.
- `Wrappers` holds `Option`/`Result`, which stand in for raised exceptions.

Three consequences of the code that the lemmas make explicit:

- A member of any Variant class is a `str`, so the hook decides it by its text
  alone. Nothing checks that the member's owning class is the one being
  checked. A member of another class whose text is among `d`'s values passes
  `d`'s check (`Meta.ForeignMemberDecidedByText`).
- Members compare as `str`, so members of two different classes with the same
  text are equal (`Values.CrossDefinitionMembersEqual`). Two different members
  of one class are never equal (`Values.DistinctMembersUnequal`).
- A repeated value raises no error: Python's enum makes the later constant an
  alias. `len` and iteration skip it, and its name reaches the first member
  (`Variant.Count`, `Variant.ByNameResolvesAlias`, `Validation.AliasScenario`).

## Model

| member | source | states |
|---|---|---|
| Meta.IsInstance | py_wraps_data_types/variant/meta.py:4-7 | The check accepts a value exactly when it is a `str` (a member or raw text) whose text is a declared value of the class. It is total and never fails. |
| Meta.RawAcceptedIffDeclared | py_wraps_data_types/variant/meta.py:5-6 | Raw text passes exactly when it equals one of the declared values, in both directions. |
| Meta.MemberAcceptedByOwner | py_wraps_data_types/variant/meta.py:5-6 | Every member passes the check of the class that declared it. |
| Meta.MemberValueAccepted | py_wraps_data_types/variant/meta.py:6 | The raw value `m.value` of every member passes the check of its class. |
| Meta.ForeignMemberDecidedByText | py_wraps_data_types/variant/meta.py:5-6 | For any member and any class, the member passes exactly when its raw value does. The owning class is never consulted. |
| Meta.NonTextRejected | py_wraps_data_types/variant/meta.py:7 | No non-`str` value passes (int, bool, None, list, dict), even a container holding a valid value. |
| Meta.NominalCheckImpliesStr | py_wraps_data_types/variant/meta.py:7 | Anything whose class derives from the Variant class is a `str`, so the fallback nominal check can never succeed. |
| Meta.IsInstanceIffFromValue | py_wraps_data_types/variant/meta.py:6 | A `str` passes exactly when lookup by its text finds a member. |
| Meta.IsInstanceIffSomeMember | py_wraps_data_types/variant/meta.py:6 | A value passes exactly when it is a `str` whose text is the value of some member that iteration yields. |
| Meta.IteratedMembersAccepted | py_wraps_data_types/variant/meta.py:5-6 | Every member that iteration yields passes, both as itself and as its raw value. |
| Variant.NoAliasesIffDistinct | py_wraps_data_types/variant/__init__.py:4 | A class has no alias exactly when its declared values are pairwise distinct. |
| Variant.MemberDeterminedByValue | py_wraps_data_types/variant/__init__.py:4 | Two members of one class with the same value are the same member, aliases or not. |
| Variant.MembersBefore | py_wraps_data_types/variant/__init__.py:4 | Over the first n constants, iteration yields exactly the members those constants make, never two with the same value. It yields n members exactly when none of them is an alias, and then in declaration order. |
| Variant.Members | py_wraps_data_types/variant/__init__.py:4 | Iteration yields exactly the members of the class, each once, skipping aliases. Without aliases it yields one member per constant, in declaration order. |
| Variant.Count | py_wraps_data_types/variant/__init__.py:4 | `len(cls)` is at most the number of constants, and equals it exactly when the class has no alias. |
| Variant.MembersBeforeCount | py_wraps_data_types/variant/__init__.py:4 | Iteration over the first n constants yields one member for each of them that is not an alias. |
| Variant.ValueMapStep | py_wraps_data_types/variant/meta.py:6 | A constant adds a key to the value table exactly when its value was not declared before it, and adds nothing when it is an alias. |
| Variant.ValueMapCount | py_wraps_data_types/variant/meta.py:6 | The value table over the first n constants has one key for each of them that is not an alias. |
| Variant.CountIsTableSize | py_wraps_data_types/variant/meta.py:6 | `len(cls)` is the number of keys of `_value2member_map_`, that is, the number of distinct declared values. |
| Variant.ValueMapOf | py_wraps_data_types/variant/meta.py:6 | The value table built over the first n constants has exactly their values as keys. Each key maps to the member of the class that the first constant with that value makes. |
| Variant.ValueMap | py_wraps_data_types/variant/meta.py:6 | The keys of `_value2member_map_` are exactly the declared values, and each key maps to a member with that value. |
| Variant.FromValue | py_wraps_data_types/variant/__init__.py:4 | `cls(s)` fails exactly when no constant has value `s`. Otherwise it returns a member of the class whose value is `s`. |
| Variant.FromValueRoundTrip | py_wraps_data_types/variant/__init__.py:4 | `cls(m.value)` gives back `m` for every member of every class. |
| Variant.NameIndexFrom | py_wraps_data_types/variant/__init__.py:4 | Searching for a name from index i fails exactly when no constant from i onwards has the name. Otherwise it yields the first index from i on whose constant has it. |
| Variant.ByName | py_wraps_data_types/variant/__init__.py:4 | `cls[name]` fails (`KeyError`) exactly when no constant has that name; `cls.NAME` agrees with it on every declared name. Otherwise it is `cls(v)` for the text v of the first constant with that name, a member of the class, so an alias name reaches the first member with its text. |
| Variant.ByNameResolvesAlias | py_wraps_data_types/variant/__init__.py:4 | Every name of the class body reaches `cls(v)` for its own text v, so an alias name reaches the first member with that text. |
| Variant.ByNameRoundTrip | py_wraps_data_types/variant/__init__.py:4 | Access by a member's name gives back that member. |
| Variant.Render | py_wraps_data_types/variant/__init__.py:8-9 | `str(m)` is a faithful serialization: looking the rendered text up in the member's class gives back `m`. |
| Variant.RenderIgnoresOwnerAndName | py_wraps_data_types/variant/__init__.py:8-9 | Two members render alike exactly when their values agree. Neither the class name nor the member name enters the rendering. |
| Values.PyEq | py_wraps_data_types/variant/__init__.py:4 | `a == b` on two `str` instances, members included, holds exactly when their texts agree. A `str` and a non-`str` are never equal. |
| Values.PyEqSymmetric | py_wraps_data_types/variant/__init__.py:4 | `==` as Python dispatches it does not depend on operand order, for every pair of values, containers included. |
| Values.MemberEqualsRaw | py_wraps_data_types/variant/__init__.py:4 | A member equals raw text exactly when the texts are identical, with the member on either side. |
| Values.DistinctMembersUnequal | py_wraps_data_types/variant/__init__.py:4 | Two different members of one class are unequal. |
| Values.CrossDefinitionMembersEqual | py_wraps_data_types/variant/__init__.py:4 | Members compare by text alone. Members of different classes with the same value are equal. |
| Values.TextNeverEqualsOtherKinds | py_wraps_data_types/variant/__init__.py:4 | A `str` never equals a value of another kind, in either order. |
| Values.ReplaceV | py_wraps_data_types/variant/__init__.py:4 | `replace` on a member yields a plain `str`, never a member. |
| Values.MapText | py_wraps_data_types/variant/__init__.py:4 | Any other text-building `str` method, such as `upper` or `lower`, yields a plain `str`. |
| Values.TextOpsRespectEquality | py_wraps_data_types/variant/__init__.py:4 | Equal `str` instances, such as a member and its value, give the same `startswith`, `endswith` and `in` answers and the same `replace` and text-building results. |
| Values.MemberReplaceCases | py_wraps_data_types/variant/__init__.py:4 | Replacing an absent non-empty target gives the member's value back as plain text. Replacing the whole value, even the empty one, gives the replacement. |
| Text.StartsWith | tests/test_variant.py:121-122 | `s.startswith(p)` holds exactly when `p` occurs in `s` at index 0. |
| Text.EndsWith | tests/test_variant.py:124-125 | `s.endswith(p)` holds exactly when `p` is no longer than `s` and occurs at its last `len(p)` positions. |
| Text.Contains | tests/test_variant.py:130-131 | `p in s` holds exactly when `p` occurs in `s` at some index. |
| Text.OccursInTail | tests/test_variant.py:130-131 | An occurrence in a non-empty text is at index 0 or is an occurrence in the text after its first character. |
| Text.Find | tests/test_variant.py:130-131 | The scan behind `in` returns the lowest index at which the pattern occurs, and -1 exactly when it is not contained. It never returns below -1. |
| Text.ContainsText | tests/test_variant.py:130-131 | Deciding `p in s` by the scan answers true exactly when `p` occurs in `s` at some index. |
| Text.Interleave | tests/test_variant.py:127-128 | `s.replace("", r)` has `len(s) + (len(s) + 1) * len(r)` characters, and is `s` itself when `r` is empty. |
| Text.InterleaveCharacters | tests/test_variant.py:127-128 | In `s.replace("", r)` the i-th character of `s` sits right after the i-th copy of `r`, at index `i * (len(r) + 1) + len(r)`. |
| Text.InterleaveSeparators | tests/test_variant.py:127-128 | In `s.replace("", r)` a copy of `r` starts at every index `i * (len(r) + 1)` for i from 0 to `len(s)`: before every character and once at the end. |
| Text.Replace | tests/test_variant.py:127-128 | `s.replace(t, r)` leaves `s` unchanged when a non-empty `t` does not occur in it. With the empty `t`, the result has `len(r)` more characters per gap. |
| Text.ReplaceSelf | tests/test_variant.py:127-128 | Replacing a target by itself gives back the original text, for every target including the empty one. |
| Text.ReplaceWhole | tests/test_variant.py:127-128 | Replacing a whole text, the empty one included, gives the replacement. |
| Validation.Validate | tests/test_variant.py:174-177 | A validating call succeeds exactly on a `str` whose text is declared. The text it passes on names a member. On failure it carries the rejected value. |
| Validation.QueryVectorDb | tests/test_variant.py:174-177 | The query succeeds exactly when the metric passes the `DistanceMetric` check. It then produces "querying with " followed by the metric's text. |
| Validation.ColorWellFormed | tests/test_variant.py:9-12 | `Color` binds each name once and has no alias. |
| Validation.BedrockModelWellFormed | tests/test_variant.py:15-18 | `BedrockModel` binds each name once and has no alias. |
| Validation.DistanceMetricWellFormed | tests/test_variant.py:21-24 | `DistanceMetric` binds each name once and has no alias. |
| Validation.ColorLookup | tests/test_variant.py:32-41 | `len(Color) == 3`, `Color.RED` is the RED member, and `Color("red")` is `Color.RED`. |
| Validation.AliasScenario | py_wraps_data_types/variant/__init__.py:4 | In a class declaring `X = "v"` and `Y = "v"`, `len` is 1, iteration yields `X` alone, and `Y` is `X`. |
| Validation.ColorFromValue | tests/test_variant.py:37-38 | `Color("green")` is GREEN, and "yellow" finds no member. |
| Validation.ColorRendering | tests/test_variant.py:139-148 | `str(Color.BLUE)` is "blue" and does not contain "Color". |
| Validation.ColorEquality | tests/test_variant.py:155-166 | RED equals "red" and "cosine" equals COSINE. RED differs from "blue" and from GREEN. |
| Validation.OtherEqualityScenario | py_wraps_data_types/variant/__init__.py:4 | `True == 1`, `"1" != 1`, and a list holding `Color.RED` equals `["red"]`. |
| Validation.ColorRawText | tests/test_variant.py:52-60 | "red" passes `Color` and "yellow" fails. |
| Validation.ColorCaseSensitive | tests/test_variant.py:65-66 | "RED" fails `Color`: matching is case-sensitive. |
| Validation.ColorCapitalizedText | tests/test_variant.py:67 | "Red" fails `Color`: matching is case-sensitive. |
| Validation.ColorEmptyText | tests/test_variant.py:62-63 | The empty string fails `Color`. |
| Validation.BedrockRawText | tests/test_variant.py:69-73 | The raw Sonnet model identifier passes `BedrockModel`, and "gpt-4" fails. |
| Validation.MemberScenario | tests/test_variant.py:81-85 | `Color.RED` passes `Color`, and `DistanceMetric.COSINE` fails it. |
| Validation.OtherScalarsScenario | tests/test_variant.py:97-101 | `1` and `None` fail `Color`. |
| Validation.ContainersScenario | tests/test_variant.py:103-107 | `["red"]` and `{"value": "red"}` fail `Color`, although each holds a valid value. |
| Validation.PrefixScenario | tests/test_variant.py:121-122 | The Sonnet member starts with "anthropic". |
| Validation.SuffixScenario | tests/test_variant.py:124-125 | The Titan member ends with ":0". |
| Validation.ContainsScenario | tests/test_variant.py:130-131 | "claude" is contained in the Haiku identifier. |
| Validation.ReplaceScenario | tests/test_variant.py:127-128 | `Color.RED.replace("red", "blue")` is the plain text "blue". |
| Validation.QueryVectorDbAccepts | tests/test_variant.py:179-185 | The query accepts `DistanceMetric.COSINE` and raw "l2" and formats their text. |
| Validation.QueryVectorDbRejects | tests/test_variant.py:187-193 | The query rejects "euclidean" and `None`. |

## Left out

- The metaclass mechanics (`EnumMeta`, `__instancecheck__` dispatch, CPython's exact-type shortcut in `isinstance`) are left out. The check is the ordinary function `Meta.IsInstance`.
- Variant.ByName, Variant.NameIndexFrom: a class body that binds one name twice is left out, because Python refuses it with a `TypeError` before the class exists. These members still answer on such a `Def`, by the first constant with the name, and the lemmas about names require `Variant.NamesDistinct`.
- Variant.Members: for a class with aliases, the contract states which members iteration yields and that none repeats, but states declaration order only for a class without aliases.
- Variant.ByName: models `cls[name]`. Attribute access `cls.NAME` on a name that is not declared can still succeed through the class's bases (`Color.lower` is `str.lower`, `Color.mro` is `type.mro`); the model gives `None` for every name that is not a member name, because inherited `str`, `Enum` and `type` attributes are not part of the model.
- Variant.FromValue: only text arguments are modelled; `cls(v)` with a non-`str` argument (`Color(1)`, `Color(None)`, `Color(["red"])`) always raises `ValueError`, since no declared value equals it.
- The messages of `ValueError`, `KeyError` and `AttributeError` are left out. Failed lookups return `None`, and a failed validation carries the rejected value.
- `repr` and the diagnostic rendering are left out. They are only illustrated by a comment in the example script.
- Unicode case mapping for `upper` and `lower` is left out. These and other text-building `str` methods are represented by `Values.MapText` with the text function as a parameter.
- Values.PyEq: `dict.__eq__` is modelled as "equal sizes and every entry has an equal entry on the other side", which is Python's rule for dictionaries whose keys are distinct and hashable. Hashing itself and the identity shortcut `x is y` inside container comparison are left out; neither changes the result for the values in `Values.Val`.
- Floats, bytes, tuples and sets are not in `Values.Val`. Like int, None, list and dict, they would take the non-`str` branch and fail.
- Text.Replace: the optional `count` argument of `replace` is left out; every occurrence is replaced.
- Text.StartsWith, Text.EndsWith: the tuple-of-prefixes form and the `start`/`end` arguments of `startswith` and `endswith` are left out.
- Text.Find: the `start`/`end` arguments of `find` are left out, and so are `index`, `rfind` and `count`; the model's scan only decides `in`.
- `isinstance(v, Variant)` against the abstract base class itself is left out, because it declares no constants.
- The example script's printing and f-string error messages are left out, because they are I/O and illustration. Its `invoke_model` guard has the same shape as `Validation.Validate`.
