/** The closed vocabularies a navigation request is built from. */
module Requests {
  import opened Editing

  /** `up`, `down`, `left`, `right`; any other string is outside the model. */
  datatype Direction = Up | Down | Left | Right

  /** `before_or_after`: act before the match, after it, or on the match itself. */
  datatype AnchorMode = Before | After | Default

  datatype NavigationAction = Go | Extend | Select | Delete | Cut | Copy

  /** RIGHT and DOWN search the text after the cursor; UP and LEFT the text before it. */
  predicate IsForward(d: Direction) { d == Right || d == Down }

  /** The edit operation a compound action issues once its selection is made. */
  function EditOf(a: NavigationAction): (k: EditKind)
    requires a == Delete || a == Cut || a == Copy
  {
    match a
    case Delete => EditDelete
    case Cut => EditCut
    case Copy => EditCopy
  }

}
