/**
 * The new-contact form schema: a name and a number of at least one character each, and
 * exactly one tag. Also the form's default values.
 */
module ContactForm {

  /** The values the form holds. */
  datatype ContactFormValues = ContactFormValues(name: string, contact: string, tags: seq<string>)

  /** The form's `defaultValues`. */
  const Defaults := ContactFormValues("", "", [])

  /** `name: min(1)`, `contact: min(1)`, `tags: min(1).max(1)`. */
  predicate ValidContactForm(v: ContactFormValues) {
    |v.name| >= 1 && |v.contact| >= 1 && 1 <= |v.tags| <= 1
  }

  /** The default values are rejected. */
  lemma DefaultsRejected()
    ensures !ValidContactForm(Defaults)
  {
  }
}
