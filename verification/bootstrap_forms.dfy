/**
  The Bootstrap form mixin: layout metadata attached to a form when it is built.
  Column overrides are written onto every field the form already has, buttons are
  merged from the class hierarchy and the caller, and the buttons are handed out
  ordered by the class's button order.
 */
module BootstrapForms {
  import opened Wrappers
  import opened Sequences
  import opened OrderedMap
  import opened ButtonOrder

  /** A CSS grid class list such as "col-sm-10". */
  type Columns = string

  /** A button descriptor: its label and its style class. */
  datatype Button = Button(text: string, cssClass: string)

  /** An insertion-ordered dict from button name to descriptor. */
  type ButtonMap = seq<(string, Button)>

  /** The layout attributes of one form field; the name stands for everything else
      about the field, which the mixin never touches. */
  datatype Field = Field(name: string, inputColumns: Option<Columns>, labelColumns: Option<Columns>)

  /**
    The class-level attributes the mixin reads through `self`, as attribute lookup
    resolves them for the form's class. `defaultButtons` holds, for each class `c` of
    the class's method resolution order taken in reverse (most general first, the
    form's own class last), the dict `getattr(c, 'default_buttons', {})`.
   */
  datatype FormClass = FormClass(
    buttonOrder: seq<string>,
    defaultButtons: seq<ButtonMap>,
    inputColumns: Option<Columns>,
    labelColumns: Option<Columns>,
    offsetColumns: Option<Columns>)

  /** A constructed form: its decorated fields, merged buttons, button order and offset. */
  datatype Form = Form(
    fields: seq<Field>,
    buttons: ButtonMap,
    buttonOrder: seq<string>,
    offsetColumns: Option<Columns>)

  /** The attributes the mixin class itself declares. */
  const MixinButtonOrder: seq<string> := ["submit"]
  const MixinDefaultButtons: ButtonMap := [("submit", Button("Submit", "primary"))]
  const MixinOffsetColumns: Columns := "col-sm-10 offset-sm-2"

  /** Python truthiness of an optional column spec: `None` and `""` are false. */
  predicate Truthy(c: Option<Columns>)
  {
    c.Some? && c.value != ""
  }

  /** `arg or default`. */
  function Or(arg: Option<Columns>, default: Option<Columns>): (r: Option<Columns>)
    ensures Truthy(arg) ==> r == arg
    ensures !Truthy(arg) ==> r == default
  {
    if Truthy(arg) then arg else default
  }

  /** `field.input_columns = c` for every field. */
  function SetInputColumns(fields: seq<Field>, c: Columns): (r: seq<Field>)
    ensures |r| == |fields|
    ensures forall i :: 0 <= i < |r| ==>
              r[i].inputColumns == Some(c)
              && r[i].name == fields[i].name
              && r[i].labelColumns == fields[i].labelColumns
  {
    seq(|fields|, i requires 0 <= i < |fields| => fields[i].(inputColumns := Some(c)))
  }

  /** `field.label_columns = c` for every field. */
  function SetLabelColumns(fields: seq<Field>, c: Columns): (r: seq<Field>)
    ensures |r| == |fields|
    ensures forall i :: 0 <= i < |r| ==>
              r[i].labelColumns == Some(c)
              && r[i].name == fields[i].name
              && r[i].inputColumns == fields[i].inputColumns
  {
    seq(|fields|, i requires 0 <= i < |fields| => fields[i].(labelColumns := Some(c)))
  }

  /**
    `BootstrapFormMixin.__init__`. `fields` are the fields the form has once the base
    form's constructor has run; `buttons` is the caller's `buttons` keyword, `[]` when
    it was not given.
   */
  function Init(cls: FormClass, fields: seq<Field>, inputColumns: Option<Columns>,
                labelColumns: Option<Columns>, offsetColumns: Option<Columns>,
                buttons: ButtonMap): (r: Form)
    ensures r.offsetColumns == if offsetColumns.Some? then offsetColumns else cls.offsetColumns
    ensures r.buttonOrder == cls.buttonOrder
    ensures |r.fields| == |fields|
    ensures forall i :: 0 <= i < |fields| ==> r.fields[i].name == fields[i].name
    ensures forall i :: 0 <= i < |fields| ==>
              r.fields[i].inputColumns
                == if Truthy(inputColumns) then inputColumns
                   else if cls.inputColumns.Some? then cls.inputColumns
                   else fields[i].inputColumns
    ensures forall i :: 0 <= i < |fields| ==>
              r.fields[i].labelColumns
                == if Truthy(labelColumns) then labelColumns
                   else if cls.labelColumns.Some? then cls.labelColumns
                   else fields[i].labelColumns
    ensures UniqueKeys(r.buttons)
  {
    var offset := if offsetColumns.Some? then offsetColumns else cls.offsetColumns;
    var input := Or(inputColumns, cls.inputColumns);
    var withInput := if input.Some? then SetInputColumns(fields, input.value) else fields;
    var labels := Or(labelColumns, cls.labelColumns);
    var withLabel := if labels.Some? then SetLabelColumns(withInput, labels.value) else withInput;
    Form(withLabel, MergeLayers(cls.defaultButtons + [buttons]), cls.buttonOrder, offset)
  }

  /** `get_offset_columns`. */
  function GetOffsetColumns(form: Form): Option<Columns>
  {
    form.offsetColumns
  }

  /** The offset override is taken whenever it is not `None`, even when it is `""`,
      unlike the column overrides, which an empty string does not replace. */
  lemma OffsetColumnsResolution(cls: FormClass, fields: seq<Field>, labelColumns: Option<Columns>,
                                buttons: ButtonMap)
    ensures var form := Init(cls, fields, Some(""), labelColumns, Some(""), buttons);
            && form.offsetColumns == Some("")
            && forall i :: 0 <= i < |fields| ==>
                 form.fields[i].inputColumns
                   == if cls.inputColumns.Some? then cls.inputColumns else fields[i].inputColumns
  {
  }

  /** `get_offset_columns` of a built form: the constructor's override when it is not
      `None`, otherwise the class default. */
  lemma GetOffsetColumnsResult(cls: FormClass, fields: seq<Field>, inputColumns: Option<Columns>,
                               labelColumns: Option<Columns>, offsetColumns: Option<Columns>,
                               buttons: ButtonMap)
    ensures var form := Init(cls, fields, inputColumns, labelColumns, offsetColumns, buttons);
            && (offsetColumns.Some? ==> GetOffsetColumns(form) == offsetColumns)
            && (offsetColumns.None? ==> GetOffsetColumns(form) == cls.offsetColumns)
  {
  }

  /** With no effective column spec the fields come out exactly as they went in. */
  lemma NoColumnsLeaveFieldsAlone(cls: FormClass, fields: seq<Field>, inputColumns: Option<Columns>,
                                  labelColumns: Option<Columns>, offsetColumns: Option<Columns>,
                                  buttons: ButtonMap)
    requires Or(inputColumns, cls.inputColumns).None? && Or(labelColumns, cls.labelColumns).None?
    ensures Init(cls, fields, inputColumns, labelColumns, offsetColumns, buttons).fields == fields
  {
    var form := Init(cls, fields, inputColumns, labelColumns, offsetColumns, buttons);
    assert forall i :: 0 <= i < |fields| ==> form.fields[i] == fields[i];
  }

  /** Button precedence: the caller's buttons beat every class default, and among the
      classes the last one in reversed method resolution order that defines a name wins. */
  lemma ButtonPrecedence(cls: FormClass, fields: seq<Field>, inputColumns: Option<Columns>,
                         labelColumns: Option<Columns>, offsetColumns: Option<Columns>,
                         buttons: ButtonMap, name: string)
    requires AllUnique(cls.defaultButtons) && UniqueKeys(buttons)
    ensures var form := Init(cls, fields, inputColumns, labelColumns, offsetColumns, buttons);
            Lookup(form.buttons, name)
              == if name in Keys(buttons) then Lookup(buttons, name)
                 else LastDefinition(cls.defaultButtons, name)
  {
    var layers := cls.defaultButtons + [buttons];
    assert layers[..|layers| - 1] == cls.defaultButtons;
    assert AllUnique(layers);
    MergeLayersLookup(layers, name);
  }

  /** A name defined by class `j` and by no class after it, and not passed by the caller,
      gets class `j`'s descriptor. */
  lemma MostDerivedDefinitionWins(cls: FormClass, fields: seq<Field>, inputColumns: Option<Columns>,
                                  labelColumns: Option<Columns>, offsetColumns: Option<Columns>,
                                  buttons: ButtonMap, name: string, j: nat)
    requires AllUnique(cls.defaultButtons) && UniqueKeys(buttons)
    requires j < |cls.defaultButtons| && name in Keys(cls.defaultButtons[j])
    requires forall i :: j < i < |cls.defaultButtons| ==> name !in Keys(cls.defaultButtons[i])
    requires name !in Keys(buttons)
    ensures var form := Init(cls, fields, inputColumns, labelColumns, offsetColumns, buttons);
            Lookup(form.buttons, name) == Lookup(cls.defaultButtons[j], name)
  {
    ButtonPrecedence(cls, fields, inputColumns, labelColumns, offsetColumns, buttons, name);
    LastDefinitionAt(cls.defaultButtons, j, name);
  }

  /** The merged names are the class defaults' names and the caller's, each once, in the
      order of first appearance, and a name is merged exactly when some layer has it. */
  lemma ButtonNames(cls: FormClass, fields: seq<Field>, inputColumns: Option<Columns>,
                    labelColumns: Option<Columns>, offsetColumns: Option<Columns>,
                    buttons: ButtonMap, name: string)
    ensures var form := Init(cls, fields, inputColumns, labelColumns, offsetColumns, buttons);
            && Keys(form.buttons) == Dedup(Keys(Flatten(cls.defaultButtons + [buttons])))
            && (name in Keys(form.buttons) <==>
                  name in Keys(buttons)
                  || exists i :: 0 <= i < |cls.defaultButtons| && name in Keys(cls.defaultButtons[i]))
  {
    var layers := cls.defaultButtons + [buttons];
    MergeLayersKeys(layers);
    var flat := Keys(Flatten(layers));
    var d := Dedup(flat);
    DedupMembers(flat);
    assert name in d <==> name in flat by {
      if name in d {
        var k :| 0 <= k < |d| && d[k] == name;
      }
      if name in flat {
        var k :| 0 <= k < |flat| && flat[k] == name;
      }
    }
    FlattenKeys(layers, name);
    if name in Keys(buttons) {
      assert layers[|layers| - 1] == buttons;
    }
    forall i | 0 <= i < |cls.defaultButtons|
      ensures layers[i] == cls.defaultButtons[i]
    {
    }
    if exists i :: 0 <= i < |layers| && name in Keys(layers[i]) {
      var i :| 0 <= i < |layers| && name in Keys(layers[i]);
      if i == |cls.defaultButtons| {
        assert layers[i] == buttons;
      }
    }
  }

  /** `get_buttons`: the merged `(name, descriptor)` pairs sorted by the position of the
      name in the button order, unlisted names ranking -1. */
  function GetButtons(form: Form): (r: ButtonMap)
    requires UniqueKeys(form.buttons)
    ensures multiset(r) == multiset(form.buttons)
    ensures UniqueKeys(r)
    ensures forall i, j :: 0 <= i < j < |r| && r[j].0 !in form.buttonOrder ==>
              r[i].0 !in form.buttonOrder
    ensures forall i, j :: 0 <= i < j < |r| && r[i].0 in form.buttonOrder ==>
              IndexOf(form.buttonOrder, r[i].0) < IndexOf(form.buttonOrder, r[j].0)
    ensures WithRank(form.buttonOrder, r, -1) == WithRank(form.buttonOrder, form.buttons, -1)
  {
    var order := form.buttonOrder;
    var r := Sort(order, form.buttons);
    SortPermutes(order, form.buttons);
    SortSorted(order, form.buttons);
    SortUniqueKeys(order, form.buttons);
    SortStable(order, form.buttons, -1);
    UnlistedFirst(order, r);
    ListedStrictlyIncreasing(order, r);
    r
  }

  /** Ordering the buttons a second time changes nothing. */
  lemma GetButtonsIdempotent(form: Form)
    requires UniqueKeys(form.buttons)
    ensures Sort(form.buttonOrder, GetButtons(form)) == GetButtons(form)
    ensures GetButtons(form.(buttons := GetButtons(form))) == GetButtons(form)
  {
    SortIdempotent(form.buttonOrder, form.buttons);
  }

  /**
    The layers of a form class whose classes declare no buttons beyond the mixin's: every
    class of its reversed method resolution order contributes `{}` (the framework's classes,
    `object` first) or the mixin's dict (the mixin itself, and every class that inherits
    `default_buttons` from it), and the mixin is among them.
   */
  predicate PlainLayers(layers: seq<ButtonMap>)
  {
    && (forall i :: 0 <= i < |layers| ==> layers[i] == [] || layers[i] == MixinDefaultButtons)
    && (exists i :: 0 <= i < |layers| && layers[i] == MixinDefaultButtons)
  }

  /** Writing the mixin's dict into `{}` gives the mixin's dict. */
  lemma MixinDefaultsIntoEmpty()
    ensures UpdateAll([], MixinDefaultButtons) == MixinDefaultButtons
  {
    var submit := MixinDefaultButtons[0];
    assert UpdateAll([], MixinDefaultButtons) == Update([], submit.0, submit.1) by {
      assert MixinDefaultButtons[..0] == [];
    }
    assert Keys<string, Button>([]) == [];
  }

  /** Writing the mixin's dict into itself changes nothing. */
  lemma MixinDefaultsIntoItself()
    ensures UpdateAll(MixinDefaultButtons, MixinDefaultButtons) == MixinDefaultButtons
  {
    var submit := MixinDefaultButtons[0];
    assert Keys(MixinDefaultButtons) == ["submit"];
    assert UpdateAll(MixinDefaultButtons, MixinDefaultButtons)
        == Update(MixinDefaultButtons, submit.0, submit.1) by {
      assert MixinDefaultButtons[..0] == [];
    }
    assert IndexOf(Keys(MixinDefaultButtons), "submit") == 0;
  }

  /** Merging layers that are each `{}` or the mixin's dict gives `{}` when no layer is the
      mixin's dict, and the mixin's dict otherwise. */
  lemma {:induction false} MergeMixinOrEmpty(layers: seq<ButtonMap>)
    requires forall i :: 0 <= i < |layers| ==> layers[i] == [] || layers[i] == MixinDefaultButtons
    ensures MergeLayers(layers)
              == if exists i :: 0 <= i < |layers| && layers[i] == MixinDefaultButtons
                 then MixinDefaultButtons else []
  {
    if |layers| > 0 {
      var p := layers[..|layers| - 1];
      var last := layers[|layers| - 1];
      assert forall i :: 0 <= i < |p| ==> p[i] == layers[i];
      MergeMixinOrEmpty(p);
      assert MergeLayers(layers) == UpdateAll(MergeLayers(p), last);
      if last == [] {
        if exists i :: 0 <= i < |layers| && layers[i] == MixinDefaultButtons {
          var i :| 0 <= i < |layers| && layers[i] == MixinDefaultButtons;
          assert p[i] == MixinDefaultButtons;
        }
      } else {
        MixinDefaultsIntoEmpty();
        MixinDefaultsIntoItself();
      }
    }
  }

  /** Merging plain layers and no caller buttons gives the mixin's single submit button. */
  lemma PlainLayersMerge(layers: seq<ButtonMap>)
    requires PlainLayers(layers)
    ensures MergeLayers(layers + [[]]) == [("submit", Button("Submit", "primary"))]
  {
    var all := layers + [[]];
    assert forall i :: 0 <= i < |layers| ==> all[i] == layers[i];
    var i :| 0 <= i < |layers| && layers[i] == MixinDefaultButtons;
    assert all[i] == MixinDefaultButtons;
    MergeMixinOrEmpty(all);
  }

  /** A form whose classes add nothing to the mixin, built without arguments, shows the
      mixin's submit button and offset, and its fields are left as they are. */
  lemma PlainMixinForm(layers: seq<ButtonMap>, fields: seq<Field>)
    requires PlainLayers(layers)
    ensures var cls := FormClass(MixinButtonOrder, layers, None, None, Some(MixinOffsetColumns));
            var form := Init(cls, fields, None, None, None, []);
            && GetButtons(form) == [("submit", Button("Submit", "primary"))]
            && GetOffsetColumns(form) == Some("col-sm-10 offset-sm-2")
            && form.fields == fields
  {
    var cls := FormClass(MixinButtonOrder, layers, None, None, Some(MixinOffsetColumns));
    NoColumnsLeaveFieldsAlone(cls, fields, None, None, None, []);
    PlainLayersMerge(layers);
  }
}
