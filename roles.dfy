/** The role labels of the client (client/src/utils/constants.js). */
module Roles {
  import opened Wrappers

  /** ROLE_LABELS: the display label of each known role. */
  const RoleLabels: map<string, string> := map[
    "admin" := "Admin",
    "reporter" := "Reporter",
    "section staff" := "Section Staff",
    "ads" := "ADS",
    "ds" := "DS"]

  /** getRoleLabel: the label of a known role, otherwise the role itself
      when it is truthy, otherwise '-'. None stands for null and
      undefined. */
  function RoleLabel(role: Option<string>): (r: string)
    ensures r != ""
    ensures role.None? || role.value == "" ==> r == "-"
    ensures role.Some? && role.value in RoleLabels ==> r == RoleLabels[role.value]
    ensures role.Some? && role.value != "" && role.value !in RoleLabels ==> r == role.value
  {
    if role.Some? && role.value in RoleLabels then RoleLabels[role.value]
    else if role.Some? && role.value != "" then role.value
    else "-"
  }

  /** The five known roles and their labels. */
  lemma KnownLabels()
    ensures RoleLabel(Some("admin")) == "Admin"
    ensures RoleLabel(Some("reporter")) == "Reporter"
    ensures RoleLabel(Some("section staff")) == "Section Staff"
    ensures RoleLabel(Some("ads")) == "ADS"
    ensures RoleLabel(Some("ds")) == "DS"
  {
  }

  /** No label is itself a role key, so labelling a label changes nothing. */
  lemma RoleLabelIdempotent(role: Option<string>)
    ensures RoleLabel(Some(RoleLabel(role))) == RoleLabel(role)
  {
    var r := RoleLabel(role);
    if role.Some? && role.value in RoleLabels {
      assert r in RoleLabels.Values;
      assert forall k :: k in RoleLabels ==> RoleLabels[k] !in RoleLabels;
    }
  }
}
