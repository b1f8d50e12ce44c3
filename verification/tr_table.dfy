/** The Turkish string table, transcribed entry by entry in source order.
    As in the English table, `button_save_changes` is declared twice with the
    same value, and templates with a placeholder are split into short
    literals. */
module TurkishTable {
  import opened Common
  import opened Strings

  /** The templates that take a parameter. */
  const ConfirmDelete: string :=
    "{{name}}" + (" adlı çalışanı silmek " + "istediğinizden emin misiniz?")
  const ErrorDelete: string :=
    "{{name}}" + (" adlı çalışan silinemedi. " + "Kayıt zaten silinmiş " + "olabilir veya bir hata oluştu.")
  const NoMatchesFor: string := "\"" + "{{term}}" + ("\" ile eşleşen " + "çalışan bulunamadı.")

  /** Key to template; `None` for a key the table does not define. */
  function Tr(key: string): Option<string> {
    match key
    case "app_title" => Some("Çalışan Yönetimi")
    case "nav_employee_list" => Some("Çalışan Listesi")
    case "nav_add_employee" => Some("Yeni Çalışan Ekle")
    case "page_title_employee_list" => Some("Çalışan Listesi")
    case "page_title_add_employee" => Some("Yeni Çalışan Ekle")

    case "employee_firstName" => Some("Adı")
    case "employee_lastName" => Some("Soyadı")
    case "employee_email" => Some("E-posta")
    case "employee_department" => Some("Departman")
    case "employee_position" => Some("Pozisyon")
    case "actions" => Some("İşlemler")
    case "button_edit" => Some("Düzenle")
    case "button_delete" => Some("Sil")

    case "department_analytics" => Some("Analitik")
    case "department_tech" => Some("Teknoloji")

    case "position_junior" => Some("Junior")
    case "position_medior" => Some("Medior")
    case "position_senior" => Some("Kıdemli (Senior)")

    case "form_label_firstName" => Some("Adı")
    case "form_label_lastName" => Some("Soyadı")
    case "form_label_dateOfEmployment" => Some("İşe Giriş Tarihi")
    case "form_label_dateOfBirth" => Some("Doğum Tarihi")
    case "form_label_phoneNumber" => Some("Telefon Numarası")
    case "form_label_emailAddress" => Some("E-posta Adresi")
    case "form_label_department" => Some("Departman")
    case "form_label_position" => Some("Pozisyon")

    case "button_add_employee" => Some("Çalışan Ekle")
    case "button_save_changes" => Some("Değişiklikleri Kaydet")
    case "button_cancel" => Some("İptal")

    case "validation_required_firstName" => Some("Ad alanı zorunludur.")
    case "validation_required_lastName" => Some("Soyad alanı zorunludur.")
    case "validation_required_dateOfEmployment" => Some("İşe Giriş Tarihi zorunludur.")
    case "validation_required_dateOfBirth" => Some("Doğum Tarihi zorunludur.")
    case "validation_required_phoneNumber" => Some("Telefon Numarası zorunludur.")
    case "validation_required_emailAddress" => Some("E-posta Adresi zorunludur.")
    case "validation_invalid_emailAddress" => Some("Lütfen geçerli bir e-posta adresi giriniz.")

    case "page_title_edit_employee" => Some("Çalışanı Düzenle")
    case "confirm_update_employee" =>
      Some("Bu çalışan kaydını güncellemek istediğinizden emin misiniz?")
    // `button_save_changes` is declared a second time here, with the same value.
    case "no_employees_found" => Some("Çalışan bulunamadı.")

    case "confirm_delete_employee" => Some(ConfirmDelete)
    case "error_delete_employee" => Some(ErrorDelete)

    case "button_view_table" => Some("Tablo Görünümü")
    case "button_view_list" => Some("Liste Görünümü")
    case "employee_phoneNumber" => Some("Telefon")
    case "employee_dateOfEmployment" => Some("İşe Giriş Tarihi")

    case "search_placeholder" => Some("Çalışanları ara")
    case "search_aria_label" => Some("Çalışanları Ara")
    case "no_employees_found_search" => Some(NoMatchesFor)
    case _ => None
  }

  lemma AppTitle()
    ensures Tr("app_title") == Some("Çalışan Yönetimi")
  {
  }

  lemma NavigationLabels()
    ensures Tr("nav_employee_list") == Some("Çalışan Listesi")
    ensures Tr("nav_add_employee") == Some("Yeni Çalışan Ekle")
  {
  }

  /** The repeated `button_save_changes` resolves to its (identical) value. */
  lemma SaveChangesLabel()
    ensures Tr("button_save_changes") == Some("Değişiklikleri Kaydet")
  {
  }

  /** The department and position keys the list page builds all exist. */
  lemma DisplayKeys()
    ensures Tr("department_analytics") == Some("Analitik") && Tr("department_tech") == Some("Teknoloji")
    ensures Tr("position_junior") == Some("Junior") && Tr("position_medior") == Some("Medior")
    ensures Tr("position_senior") == Some("Kıdemli (Senior)")
  {
  }

  /** The delete confirmation holds the `{{name}}` placeholder once. */
  lemma ConfirmDeletePlaceholder()
    ensures Tr("confirm_delete_employee") == Some(ConfirmDelete)
    ensures PlacedOnce(ConfirmDelete, "{{name}}")
  {
    PlacedOnceAtStart("{{name}}", " adlı çalışanı silmek " + "istediğinizden emin misiniz?");
  }

  /** The delete failure message is the table's entry for its key. */
  lemma ErrorDeleteEntry()
    ensures Tr("error_delete_employee") == Some(ErrorDelete)
  {
  }

  /** The delete failure message holds the `{{name}}` placeholder once. */
  lemma ErrorDeletePlaceholder()
    ensures PlacedOnce(ErrorDelete, "{{name}}")
  {
    PlacedOnceAtStart("{{name}}",
      " adlı çalışan silinemedi. " + "Kayıt zaten silinmiş " + "olabilir veya bir hata oluştu.");
  }

  /** The no-match search message holds the `{{term}}` placeholder once. */
  lemma SearchTermPlaceholder()
    ensures PlacedOnce(Tr("no_employees_found_search").value, "{{term}}")
  {
    assert Tr("no_employees_found_search").value == NoMatchesFor;
    PlacedOnceIntro("\"", "{{term}}", "\" ile eşleşen " + "çalışan bulunamadı.");
  }
}
