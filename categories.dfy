/** The category panel of `static/js/modules/categories.js`: categories are
    `{name, color}` objects, `window.currentCategory` is the category filter
    of the task list and `window.currentEditCategory` the category being
    edited. Server answers and confirmations are parameters. */
module Categories {
  import opened Common

  /** An entry of `/api/categories`; `None` for a missing or null color. */
  datatype Category = Category(name: string, color: Option<string>)

  const DefaultColor: string := "#e5e7eb"

  function Names(categories: seq<Category>): (names: seq<string>)
    ensures |names| == |categories|
    ensures forall k :: 0 <= k < |categories| ==> names[k] == categories[k].name
  {
    seq(|categories|, k requires 0 <= k < |categories| => categories[k].name)
  }

  /** `categories.find(c => c.name === name)`: the first category of that
      name, if any. */
  function FindCategory(categories: seq<Category>, name: string): (r: Option<Category>)
    ensures r.Some? <==> exists k :: 0 <= k < |categories| && categories[k].name == name
    ensures r.Some? ==>
      exists k :: 0 <= k < |categories| && categories[k] == r.value && r.value.name == name &&
        forall j :: 0 <= j < k ==> categories[j].name != name
  {
    var names := Names(categories);
    var i := IndexOf(names, name);
    if i < 0 then None
    else
      assert forall j :: 0 <= j < i ==> names[..i][j] == categories[j].name;
      Some(categories[i])
  }

  /** `getCategoryColor`: the category's color, or the default grey when
      the category is unknown or has no (or an empty) color. */
  function CategoryColor(categories: seq<Category>, name: string): (color: string)
    ensures (exists k :: 0 <= k < |categories| && categories[k].name == name) ==>
      var c := FindCategory(categories, name).value;
      color == if Truthy(c.color) then c.color.value else DefaultColor
    ensures (forall k :: 0 <= k < |categories| ==> categories[k].name != name) ==> color == DefaultColor
    ensures color == DefaultColor || exists k :: 0 <= k < |categories| && categories[k].name == name && categories[k].color == Some(color)
  {
    match FindCategory(categories, name)
    case None => DefaultColor
    case Some(c) => if Truthy(c.color) then c.color.value else DefaultColor
  }

  /** The body `addCategory` posts: nothing for a blank name, otherwise the
      trimmed name and the chosen color, or the default one. */
  function AddCategoryRequest(nameInput: string, colorInput: Option<string>): (r: Option<Category>)
  {
    var name := JsTrim(nameInput);
    if name == "" then None
    else Some(Category(name, Some(if Truthy(colorInput) then colorInput.value else DefaultColor)))
  }

  /** A blank name sends nothing; a request carries the trimmed name, which
      is non-empty, and always a non-empty color. */
  lemma {:induction false} AddCategoryRequestSpec(nameInput: string, colorInput: Option<string>)
    ensures AddCategoryRequest(nameInput, colorInput).None? <==> AllOf(nameInput, IsJsSpace)
    ensures var r := AddCategoryRequest(nameInput, colorInput);
      r.Some? ==> r.value.name == JsTrim(nameInput) && r.value.name != "" && Truthy(r.value.color)
    ensures var r := AddCategoryRequest(nameInput, colorInput);
      r.Some? && Truthy(colorInput) ==> r.value.color == colorInput
  {
    StripEmptyIffBlank(nameInput, IsJsSpace);
  }

  /** The category filter after a click on `clicked`: the active category
      is cleared, any other becomes active. */
  function ToggleCategory(current: Option<string>, clicked: string): (r: Option<string>)
  {
    if current == Some(clicked) then None else Some(clicked)
  }

  /** Clicking the same category twice restores the filter: after the first
      click it is either cleared or set to the clicked category. */
  lemma {:induction false} ToggleCategoryTwice(current: Option<string>, clicked: string)
    ensures ToggleCategory(current, clicked) == None <==> current == Some(clicked)
    ensures ToggleCategory(current, clicked) != None ==> ToggleCategory(current, clicked) == Some(clicked)
    ensures current.None? || current == Some(clicked) ==>
      ToggleCategory(ToggleCategory(current, clicked), clicked) == current
  {
  }

  /** The module's window state. */
  class CategoryView {
    var categories: seq<Category>
    var currentCategory: Option<string>
    var currentEditCategory: Option<string>

    constructor(categories0: seq<Category>)
      ensures categories == categories0 && currentCategory.None? && currentEditCategory.None?
    {
      categories := categories0;
      currentCategory := None;
      currentEditCategory := None;
    }

    /** `fetchCategories`: a successful load replaces the list, a failed
        one leaves it. */
    method Refresh(loaded: Option<seq<Category>>)
      modifies this
      ensures categories == if loaded.Some? then loaded.value else old(categories)
      ensures currentCategory == old(currentCategory) && currentEditCategory == old(currentEditCategory)
    {
      if loaded.Some? {
        categories := loaded.value;
      }
    }

    /** `filterTasksByCategory`. */
    method FilterByCategory(clicked: string)
      modifies this
      ensures currentCategory == ToggleCategory(old(currentCategory), clicked)
      ensures categories == old(categories) && currentEditCategory == old(currentEditCategory)
    {
      currentCategory := if currentCategory == Some(clicked) then None else Some(clicked);
    }

    /** `deleteCategory`: nothing happens unless the user confirms and the
        server accepts; then the filter is cleared if it was the deleted
        category, and the list reloaded. */
    method DeleteCategory(name: string, confirmed: bool, serverOk: bool, loaded: Option<seq<Category>>)
      modifies this
      ensures !confirmed || !serverOk ==>
        categories == old(categories) && currentCategory == old(currentCategory)
      ensures confirmed && serverOk ==>
        && currentCategory == (if old(currentCategory) == Some(name) then None else old(currentCategory))
        && categories == (if loaded.Some? then loaded.value else old(categories))
      ensures currentEditCategory == old(currentEditCategory)
    {
      if !confirmed || !serverOk {
        return;
      }
      if currentCategory == Some(name) {
        currentCategory := None;
      }
      Refresh(loaded);
    }

    /** `openEditCategoryModal`: only a known category can be edited. */
    method OpenEdit(name: string)
      modifies this
      ensures currentEditCategory ==
        if FindCategory(categories, name).Some? then Some(name) else old(currentEditCategory)
      ensures categories == old(categories) && currentCategory == old(currentCategory)
    {
      var category := FindCategory(categories, name);
      if category.None? {
        return;
      }
      currentEditCategory := Some(name);
    }

    /** `saveCategoryChanges`: nothing happens without a category being
        edited, for a blank new name, or when the server refuses; after a
        successful rename the filter follows the renamed category, the
        editor closes and the list is reloaded. */
    method SaveChanges(nameInput: string, serverOk: bool, loaded: Option<seq<Category>>)
      modifies this
      ensures !Truthy(old(currentEditCategory)) || AllOf(nameInput, IsJsSpace) || !serverOk ==>
        && categories == old(categories)
        && currentCategory == old(currentCategory)
        && currentEditCategory == old(currentEditCategory)
      ensures Truthy(old(currentEditCategory)) && !AllOf(nameInput, IsJsSpace) && serverOk ==>
        && currentCategory == (if old(currentCategory) == old(currentEditCategory) then Some(JsTrim(nameInput))
                               else old(currentCategory))
        && currentEditCategory.None?
        && categories == (if loaded.Some? then loaded.value else old(categories))
    {
      StripEmptyIffBlank(nameInput, IsJsSpace);
      if !Truthy(currentEditCategory) {
        return;
      }
      var newName := JsTrim(nameInput);
      if newName == "" {
        return;
      }
      if !serverOk {
        return;
      }
      if currentCategory == currentEditCategory {
        currentCategory := Some(newName);
      }
      currentEditCategory := None;
      Refresh(loaded);
    }

    /** The drop handler: a dropped name becomes the filter only if such a
        category exists. */
    method Drop(name: string)
      modifies this
      ensures (exists k :: 0 <= k < |categories| && categories[k].name == name) ==> currentCategory == Some(name)
      ensures (forall k :: 0 <= k < |categories| ==> categories[k].name != name) ==>
        currentCategory == old(currentCategory)
      ensures categories == old(categories) && currentEditCategory == old(currentEditCategory)
    {
      var category := FindCategory(categories, name);
      if category.Some? {
        currentCategory := Some(name);
      }
    }
  }
}
