/** The English string table, transcribed entry by entry in source order.
    The object literal declares `button_save_changes` twice with the same
    value; the match takes the first case, the literal keeps the last
    declaration, and both give that value. Templates that carry a placeholder
    are written as concatenations of short literals so that proofs about
    their characters stay small; their values are the source's strings. */
module EnglishTable {
  import opened Common
  import opened Strings

  /** The two templates that take a `name` parameter. */
  const ConfirmDelete: string := "Are you sure you want " + "to delete " + "{{name}}" + "?"
  const ErrorDelete: string := "Could not delete employee " + "{{name}}"
    + (". The record might have " + "already been removed " + "or an error occurred.")

  /** Key to template; `None` for a key the table does not define. */
  function En(key: string): Option<string> {
    match key
    case "app_title" => Some("Employee Management")
    case "nav_employee_list" => Some("Employee List")
    case "nav_add_employee" => Some("Add New Employee")
    case "page_title_employee_list" => Some("Employee List")
    case "page_title_add_employee" => Some("Add New Employee")

    case "employee_firstName" => Some("First Name")
    case "employee_lastName" => Some("Last Name")
    case "employee_email" => Some("Email")
    case "employee_department" => Some("Department")
    case "employee_position" => Some("Position")
    case "actions" => Some("Actions")
    case "button_edit" => Some("Edit")
    case "button_delete" => Some("Delete")

    case "department_analytics" => Some("Analytics")
    case "department_tech" => Some("Tech")

    case "position_junior" => Some("Junior")
    case "position_medior" => Some("Medior")
    case "position_senior" => Some("Senior")

    case "form_label_firstName" => Some("First Name")
    case "form_label_lastName" => Some("Last Name")
    case "form_label_dateOfEmployment" => Some("Date of Employment")
    case "form_label_dateOfBirth" => Some("Date of Birth")
    case "form_label_phoneNumber" => Some("Phone Number")
    case "form_label_emailAddress" => Some("Email Address")
    case "form_label_department" => Some("Department")
    case "form_label_position" => Some("Position")

    case "button_add_employee" => Some("Add Employee")
    case "button_save_changes" => Some("Save Changes")
    case "button_cancel" => Some("Cancel")

    case "validation_required_firstName" => Some("First Name is required.")
    case "validation_required_lastName" => Some("Last Name is required.")
    case "validation_required_dateOfEmployment" => Some("Date of Employment is required.")
    case "validation_required_dateOfBirth" => Some("Date of Birth is required.")
    case "validation_required_phoneNumber" => Some("Phone Number is required.")
    case "validation_required_emailAddress" => Some("Email Address is required.")
    case "validation_invalid_emailAddress" => Some("Please enter a valid email address.")

    case "page_title_edit_employee" => Some("Edit Employee")
    case "confirm_update_employee" => Some("Are you sure you want to update this employee record?")
    // `button_save_changes` is declared a second time here, with the same value.
    case "no_employees_found" => Some("No employees found.")

    case "confirm_delete_employee" => Some(ConfirmDelete)
    case "error_delete_employee" => Some(ErrorDelete)

    case "button_view_table" => Some("Table View")
    case "button_view_list" => Some("List View")
    case "employee_phoneNumber" => Some("Phone")
    case "employee_dateOfEmployment" => Some("Employed")
    case _ => None
  }

  lemma AppTitle()
    ensures En("app_title") == Some("Employee Management")
  {
  }

  /** The repeated `button_save_changes` resolves to its (identical) value. */
  lemma SaveChangesLabel()
    ensures En("button_save_changes") == Some("Save Changes")
  {
  }

  /** The department and position keys the list page builds all exist. */
  lemma DisplayKeys()
    ensures En("department_analytics") == Some("Analytics") && En("department_tech") == Some("Tech")
    ensures En("position_junior") == Some("Junior") && En("position_medior") == Some("Medior")
    ensures En("position_senior") == Some("Senior")
  {
  }

  /** The search strings are not part of this table. */
  lemma NoSearchKeys()
    ensures En("no_employees_found_search") == None
    ensures En("search_placeholder") == None
    ensures En("search_aria_label") == None
  {
  }

  /** The delete confirmation holds the `{{name}}` placeholder once. */
  lemma ConfirmDeletePlaceholder()
    ensures En("confirm_delete_employee") == Some(ConfirmDelete)
    ensures PlacedOnce(ConfirmDelete, "{{name}}")
  {
    PlacedOnceIntro("Are you sure you want " + "to delete ", "{{name}}", "?");
  }

  /** The delete failure message is the table's entry for its key. */
  lemma ErrorDeleteEntry()
    ensures En("error_delete_employee") == Some(ErrorDelete)
  {
  }

  /** The delete failure message holds the `{{name}}` placeholder once. */
  lemma ErrorDeletePlaceholder()
    ensures PlacedOnce(ErrorDelete, "{{name}}")
  {
    PlacedOnceIntro("Could not delete employee ", "{{name}}",
      ". The record might have " + "already been removed " + "or an error occurred.");
  }
}
