/**
 * The three record types the store persists. Each has an auto-increment `id`
 * that the store assigns on insert; a record built in the browser carries the
 * declared default 0 until then.
 */
module Entities {
  import opened Wrappers

  /** A task's priority: one of three literal strings in the source. */
  datatype Priority = Low | Medium | High

  /**
   * A to-do item. `createdAt` is absent on a fresh record and stamped by the
   * store at insert; the model reads the store's clock as a counter.
   */
  datatype Task = Task(
    id: nat,
    title: string,
    description: string,
    completed: bool,
    priority: Priority,
    createdAt: Option<nat>)

  /** An address-book entry. */
  datatype Contact = Contact(id: nat, name: string, email: string, phone: string, company: string)

  /** A catalogue item; `price` is in integer cents. */
  datatype Product = Product(
    id: nat,
    name: string,
    description: string,
    price: int,
    category: string,
    inStock: bool)

  /** A fresh `Task` with every field at its declared default. */
  const NewTask := Task(0, "", "", false, Medium, None)

  /** A fresh `Contact` with every field at its declared default. */
  const NewContact := Contact(0, "", "", "", "")

  /** A fresh `Product` with every field at its declared default. */
  const NewProduct := Product(0, "", "", 0, "", true)

  /** A fresh task: id 0 until the store numbers it, empty texts, not completed, medium priority, no creation time. */
  lemma TaskDefaults()
    ensures NewTask.id == 0 && NewTask.title == "" && NewTask.description == ""
    ensures !NewTask.completed && NewTask.priority == Medium && NewTask.createdAt.None?
  {
  }

  /** A fresh contact: id 0 until the store numbers it, every text empty. */
  lemma ContactDefaults()
    ensures NewContact.id == 0 && NewContact.name == "" && NewContact.email == ""
    ensures NewContact.phone == "" && NewContact.company == ""
  {
  }

  /** A fresh product: id 0 until the store numbers it, empty texts, price 0, in stock. */
  lemma ProductDefaults()
    ensures NewProduct.id == 0 && NewProduct.name == "" && NewProduct.description == "" && NewProduct.category == ""
    ensures NewProduct.price == 0 && NewProduct.inStock
  {
  }

  function TaskId(t: Task): nat { t.id }
  function ContactId(c: Contact): nat { c.id }
  function ProductId(p: Product): nat { p.id }
}
