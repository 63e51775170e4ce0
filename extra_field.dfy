/**
 * Resolution of the configured extra column (`init_extra_field`): an option
 * string names a record field, looked up by key in the field table.
 */
module ExtraField {

  datatype Option<T> = None | Some(value: T)

  /**
   * The field id for an option value: -1 when the option is unset or empty,
   * when it names a field that is always shown ("name", "email"), or when no
   * field has that key; otherwise the id the field table gives the key.
   * `fieldIds` stands for the lookup of `find_field_number`.
   */
  function InitExtraField(option: Option<string>, fieldIds: map<string, nat>): (ret: int)
    ensures ret >= -1
    ensures ret != -1 <==>
              option.Some? && option.value != "" && option.value != "name" &&
              option.value != "email" && option.value in fieldIds
    ensures ret != -1 ==> ret == fieldIds[option.value]
  {
    if option.Some? && |option.value| > 0 then
      var found: int := if option.value in fieldIds then fieldIds[option.value] else -1;
      if option.value == "name" || option.value == "email" then -1 else found
    else -1
  }
}
