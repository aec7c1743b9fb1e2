/**
 * The section list of the new-learning-material page: the handlers that
 * add, remove and edit sections.
 */
module SectionEditor {
  import opened JsLib

  datatype SectionDraft = SectionDraft(title: string, description: string)

  /** The string fields `handleSectionChange` is called with. */
  datatype SectionField = TitleField | DescriptionField

  /** The section every new row starts as. */
  function EmptySection(): SectionDraft {
    SectionDraft("", "")
  }

  /** `{ ...section, [field]: value }`. */
  function WithField(s: SectionDraft, f: SectionField, value: string): (r: SectionDraft)
    ensures f == TitleField ==> r.title == value && r.description == s.description
    ensures f == DescriptionField ==> r.description == value && r.title == s.title
  {
    match f
    case TitleField => s.(title := value)
    case DescriptionField => s.(description := value)
  }

  class LearningMaterialDraft {
    var sections: seq<SectionDraft>

    /** The list is never empty: it starts with one section and the remove
        control is only shown while there is more than one. */
    predicate Valid()
      reads this
    {
      |sections| >= 1
    }

    constructor()
      ensures Valid()
      ensures sections == [EmptySection()]
    {
      sections := [EmptySection()];
    }

    /** `handleAddSection`: an empty section at the end. */
    method AddSection()
      requires Valid()
      modifies this
      ensures Valid()
      ensures |sections| == |old(sections)| + 1
      ensures sections[..|old(sections)|] == old(sections)
      ensures sections[|old(sections)|] == EmptySection()
    {
      sections := sections + [EmptySection()];
    }

    /** `handleRemoveSection`: section `index` leaves, the rest keep their order. */
    method RemoveSection(index: int)
      requires Valid() && |sections| > 1 && 0 <= index < |sections|
      modifies this
      ensures Valid()
      ensures |sections| == |old(sections)| - 1
      ensures forall i :: 0 <= i < index ==> sections[i] == old(sections)[i]
      ensures forall i :: index <= i < |sections| ==> sections[i] == old(sections)[i + 1]
      ensures multiset(sections) + multiset{old(sections)[index]} == multiset(old(sections))
    {
      var copy := sections;
      copy := SpliceOne(copy, index);
      sections := copy;
    }

    /** `handleSectionChange`: field `f` of section `index` becomes `value`. */
    method ChangeSection(index: int, f: SectionField, value: string)
      requires Valid() && 0 <= index < |sections|
      modifies this
      ensures Valid()
      ensures |sections| == |old(sections)|
      ensures forall i :: 0 <= i < |sections| && i != index ==> sections[i] == old(sections)[i]
      ensures f == TitleField ==> sections[index] == old(sections)[index].(title := value)
      ensures f == DescriptionField ==> sections[index] == old(sections)[index].(description := value)
    {
      var copy := sections;
      copy := copy[index := WithField(copy[index], f, value)];
      sections := copy;
    }
  }
}
