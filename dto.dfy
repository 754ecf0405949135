/**
 * The TaskDTO exchanged with clients, and the bean-validation constraints
 * the controller checks before a create or an update: @NotBlank and
 * @Size(3, 200) on the title, @Size(max 1000) on the description.
 */
module Dto {
  import opened Wrappers
  import opened Entity

  datatype TaskDto = TaskDto(
    id: Option<int>,
    title: Option<string>,
    description: Option<string>,
    status: Option<TaskStatus>,
    priority: Option<TaskPriority>,
    createdAt: Option<Timestamp>,
    updatedAt: Option<Timestamp>,
    dueDate: Option<Timestamp>)

  const TitleMin := 3
  const TitleMax := 200
  const DescriptionMax := 1000

  /** A character that String.trim removes: any code point up to U+0020. */
  predicate IsTrimmed(c: char) {
    c <= ' '
  }

  predicate AllTrimmed(s: string) {
    forall i :: 0 <= i < |s| ==> IsTrimmed(s[i])
  }

  /** String.trim's leading scan: drops the trimmable prefix. */
  function TrimLeading(s: string): (r: string)
    ensures |r| <= |s|
    ensures r == s[|s| - |r|..]
    ensures r != [] ==> !IsTrimmed(r[0])
    ensures AllTrimmed(s[..|s| - |r|])
  {
    if s != [] && IsTrimmed(s[0]) then
      var r := TrimLeading(s[1..]);
      assert s[1..][..|s| - 1 - |r|] == s[1..|s| - |r|];
      r
    else
      s
  }

  /** String.trim's trailing scan: drops the trimmable suffix. */
  function TrimTrailing(s: string): (r: string)
    ensures |r| <= |s|
    ensures r == s[..|r|]
    ensures r != [] ==> !IsTrimmed(r[|r| - 1])
    ensures AllTrimmed(s[|r|..])
  {
    if s != [] && IsTrimmed(s[|s| - 1]) then
      var r := TrimTrailing(s[..|s| - 1]);
      assert s[..|s| - 1][..|r|] == s[..|r|];
      assert s[..|s| - 1][|r|..] == s[|r|..|s| - 1];
      assert s[|r|..] == s[|r|..|s| - 1] + [s[|s| - 1]];
      r
    else
      s
  }

  /** String.trim. */
  function Trim(s: string): string {
    TrimTrailing(TrimLeading(s))
  }

  /** A string trims to nothing exactly when every character in it is trimmable. */
  lemma TrimEmptyIffAllTrimmed(s: string)
    ensures Trim(s) == [] <==> AllTrimmed(s)
  {
    var l := TrimLeading(s);
    if Trim(s) == [] {
      assert AllTrimmed(l[0..]);
      assert s == s[..|s| - |l|] + l;
    }
  }

  /** @NotBlank as Hibernate Validator checks it: not null, and not empty once trimmed. */
  predicate NotBlank(s: Option<string>) {
    s.Some? && |Trim(s.value)| > 0
  }

  /** @Size(min, max): null is accepted, otherwise the length must be in range. */
  predicate SizeWithin(s: Option<string>, min: nat, max: nat) {
    s.None? || min <= |s.value| <= max
  }

  predicate ValidTitle(t: Option<string>) {
    NotBlank(t) && SizeWithin(t, TitleMin, TitleMax)
  }

  predicate ValidDescription(d: Option<string>) {
    SizeWithin(d, 0, DescriptionMax)
  }

  /** The constraints @Valid enforces on a TaskDTO; no other field carries one. */
  predicate Valid(dto: TaskDto) {
    ValidTitle(dto.title) && ValidDescription(dto.description)
  }

  /** A title is valid iff it is present, has a character above U+0020 and is 3 to 200 long. */
  lemma ValidTitleIff(t: Option<string>)
    ensures ValidTitle(t) <==>
      && t.Some?
      && (exists i :: 0 <= i < |t.value| && !IsTrimmed(t.value[i]))
      && TitleMin <= |t.value| <= TitleMax
  {
    if t.Some? {
      TrimEmptyIffAllTrimmed(t.value);
    }
  }

  /** The length rule does not rescue a blank title: three or more spaces is still invalid. */
  lemma BlankTitleInvalid(s: string)
    requires TitleMin <= |s| <= TitleMax
    requires AllTrimmed(s)
    ensures !ValidTitle(Some(s))
  {
    TrimEmptyIffAllTrimmed(s);
  }

  /** A description is valid iff it is absent or at most 1000 long. */
  lemma ValidDescriptionIff(d: Option<string>)
    ensures ValidDescription(d) <==> d.None? || |d.value| <= DescriptionMax
  {
  }

  /** Validity depends on the title and the description only. */
  lemma ValidityIgnoresOtherFields(a: TaskDto, b: TaskDto)
    requires a.title == b.title && a.description == b.description
    ensures Valid(a) <==> Valid(b)
  {
  }

  /** A valid DTO's title and description fit the entity's columns. */
  lemma ValidFitsColumns(dto: TaskDto)
    requires Valid(dto)
    ensures dto.title.Some? && |dto.title.value| <= TitleColumnLength
    ensures dto.description.Some? ==> |dto.description.value| <= DescriptionColumnLength
  {
  }
}
