/** `CreateGroupRequest`: the body of a group-creation call and the Bean
    Validation constraints `@Valid` checks on it before the service runs. A
    `null` passes `@Size`; only `@NotNull`/`@NotBlank` reject it. */
module CreateGroupRequests {
  import opened Common

  const NAME_REQUIRED := "Group name is required"
  const NAME_SIZE := "Group name must be between 3 and 100 characters"
  const CREATOR_REQUIRED := "Creator ID is required"
  const MEMBERS_REQUIRED := "Member list cannot be null"
  const MEMBERS_SIZE := "Group must have at least one other member besides the creator"

  datatype CreateGroupRequest = CreateGroupRequest(
    name: Option<string>,
    creatorId: Option<Id>,
    memberIds: Option<seq<Id>>)
  {
    /** `@NotBlank`: present and not only whitespace. */
    predicate NameNotBlank() { name.Some? && !IsBlank(name.value) }

    /** `@Size(min = 3, max = 100)` on the name, counted in UTF-16 units. */
    predicate NameSizeOk() { name.None? || 3 <= Utf16Length(name.value) <= 100 }

    /** `@Size(min = 1)` on the member list. */
    predicate MembersSizeOk() { memberIds.None? || |memberIds.value| >= 1 }

    predicate IsValid() {
      NameNotBlank() && NameSizeOk() && creatorId.Some? && memberIds.Some? && MembersSizeOk()
    }

    /** The messages of the violated constraints. Bean Validation reports them
        as a set; the model lists them in declaration order, and only which
        messages occur carries meaning. */
    function Violations(): (r: seq<string>)
      ensures r == [] <==> IsValid()
      ensures NAME_REQUIRED in r <==> !NameNotBlank()
      ensures NAME_SIZE in r <==> !NameSizeOk()
      ensures CREATOR_REQUIRED in r <==> creatorId.None?
      ensures MEMBERS_REQUIRED in r <==> memberIds.None?
      ensures MEMBERS_SIZE in r <==> !MembersSizeOk()
    {
      (if NameNotBlank() then [] else [NAME_REQUIRED])
      + (if NameSizeOk() then [] else [NAME_SIZE])
      + (if creatorId.Some? then [] else [CREATOR_REQUIRED])
      + (if memberIds.Some? then [] else [MEMBERS_REQUIRED])
      + (if MembersSizeOk() then [] else [MEMBERS_SIZE])
    }
  }

  /** The two name constraints are independent: three spaces are long enough
      but blank, two letters are not blank but too short, and a missing name
      fails only `@NotBlank`. A letter and an emoji are two characters but
      three UTF-16 units, long enough for `@Size`. */
  lemma NameConstraintsIndependent()
    ensures var r := CreateGroupRequest(Some("   "), Some(1), Some([2]));
      r.Violations() == [NAME_REQUIRED]
    ensures var r := CreateGroupRequest(Some("ab"), Some(1), Some([2]));
      r.Violations() == [NAME_SIZE]
    ensures var r := CreateGroupRequest(None, Some(1), Some([2]));
      r.Violations() == [NAME_REQUIRED]
  {
    var blank := CreateGroupRequest(Some("   "), Some(1), Some([2]));
    assert IsBlank("   ");
    var short := CreateGroupRequest(Some("ab"), Some(1), Some([2]));
    assert !IsBlank("ab") by { assert "ab"[0] == 'a'; }
  }

  /** `@Size` counts UTF-16 units: a letter and one character outside the
      Basic Multilingual Plane are two characters but three units, enough. */
  lemma NameSizeCountsUtf16Units()
    ensures var r := CreateGroupRequest(Some("a\U{1F600}"), Some(1), Some([2]));
      r.Violations() == []
  {
    assert !IsBlank("a\U{1F600}") by { assert "a\U{1F600}"[0] == 'a'; }
  }

  /** A missing member list fails only `@NotNull`, an empty one only `@Size`. */
  lemma MemberConstraintsIndependent(name: string, creator: Id)
    requires !IsBlank(name) && 3 <= Utf16Length(name) <= 100
    ensures CreateGroupRequest(Some(name), Some(creator), None).Violations() == [MEMBERS_REQUIRED]
    ensures CreateGroupRequest(Some(name), Some(creator), Some([])).Violations() == [MEMBERS_SIZE]
  {
  }
}
